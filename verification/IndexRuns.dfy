/** Every interleaving of any number of indexers. One indexer reads the record, then the file, then the rows, and
    later commits; anything may happen in between: appends, rewrites of the file, commits of the others. */
module IndexRuns {
  import opened Basics
  import opened Jsonl
  import opened Chunker
  import opened TranscriptIndex

  datatype Phase =
    | Idle
    | HasRecord(expected: Option<Record>)
    | HasFile(expected: Option<Record>, file: Bytes)
    | HasRows(expected: Option<Record>, file: Bytes, rows: Rows)

  /** One successful commit: the record it started from, the record it wrote, the bytes it consumed and the file it
      had read. */
  datatype Entry = Entry(expected: Option<Record>, record: Record, segment: Bytes, file: Bytes)

  /** The log holds the commits since the source was last replaced. */
  datatype World = World(file: Bytes, db: Db, phases: map<nat, Phase>, log: seq<Entry>)

  datatype Event =
    | Append(bytes: Bytes)
    | Rewrite(bytes: Bytes)
    | ReadRecord(who: nat)
    | ReadFile(who: nat)
    | ReadRows(who: nat)
    | TryCommit(who: nat, now: int, force: bool)

  const START := World([], Db(None, map[]), map[], [])

  function PhaseOf(w: World, who: nat): Phase {
    if who in w.phases then w.phases[who] else Idle
  }

  ghost function Step<M>(lib: Imports<M>, w: World, e: Event): World {
    match e
    case Append(bytes) => w.(file := w.file + bytes)
    case Rewrite(bytes) => w.(file := bytes)
    case ReadRecord(who) => w.(phases := w.phases[who := HasRecord(w.db.record)])
    case ReadFile(who) =>
      if PhaseOf(w, who).HasRecord? then
        w.(phases := w.phases[who := HasFile(PhaseOf(w, who).expected, w.file)])
      else w
    case ReadRows(who) =>
      if PhaseOf(w, who).HasFile? then
        w.(phases := w.phases[who := HasRows(PhaseOf(w, who).expected, PhaseOf(w, who).file, w.db.rows)])
      else w
    case TryCommit(who, now, force) =>
      if PhaseOf(w, who).HasRows? then
        var HasRows(expected, file, rows) := PhaseOf(w, who);
        Finish(w, who, file, Prepare(lib, expected, file, rows, force), now)
      else w
  }

  /** The indexer commits its draft, if it has one and nothing stands in the way, and is idle again. */
  function Finish(w: World, who: nat, file: Bytes, d: Draft, now: int): World {
    var idle := w.(phases := w.phases[who := Idle]);
    if !d.Draft? || Commit(w.db, d, now).None? then idle
    else
      var db := Commit(w.db, d, now).value;
      idle.(db := db, log := (if d.replace then [] else w.log) + [EntryOf(file, d, db)])
  }

  function EntryOf(file: Bytes, d: Draft, db: Db): Entry
    requires d.Draft?
  {
    var record := if db.record.Some? then db.record.value else Record("", 0, 0, 0);
    Entry(d.expected, record, Segment(file, From(d), d.offset), file)
  }

  /** Where the draft's reading started. */
  function From(d: Draft): nat
    requires d.Draft?
  {
    if d.replace then 0 else OffsetOf(d.expected)
  }

  function Segment(file: Bytes, from: nat, until: nat): Bytes {
    if from <= until <= |file| then file[from..until] else []
  }

  ghost function Run<M>(lib: Imports<M>, w: World, events: seq<Event>): World
    decreases |events|
  {
    if events == [] then w else Run(lib, Step(lib, w, events[0]), events[1..])
  }

  // ---- What a draft looks like ----

  /** The draft reads the file on from where it starts, and numbers its chunks after the rows that stay. */
  ghost predicate DraftOk<M>(lib: Imports<M>, expected: Option<Record>, file: Bytes, rows: Rows, d: Draft) {
    && d.Draft? && d.expected == expected
    && From(d) <= |file|
    && var parsed := Parse(lib.reader, file[From(d)..]);
    && d.offset == From(d) + parsed.consumed <= |file|
    && d.hash == lib.sha256(file[..d.offset])
    && d.empty == (parsed.messages == [])
    && (d.empty ==> d.chunks == [] && !parsed.partial)
    && (!d.empty ==>
          d.chunks == SegmentChunks(lib, parsed.messages) && d.first == NextIndex(if d.replace then {} else rows.Keys))
  }

  lemma PreparedIsOk<M>(lib: Imports<M>, expected: Option<Record>, file: Bytes, rows: Rows, force: bool)
    requires Prepare(lib, expected, file, rows, force).Draft?
    ensures DraftOk(lib, expected, file, rows, Prepare(lib, expected, file, rows, force))
    ensures Prepare(lib, expected, file, rows, force).replace == (force || Replaced(lib, expected, file))
  {
    var from := if force || Replaced(lib, expected, file) then 0 else OffsetOf(expected);
    assert from <= |file|;
    ConsumesAllUnlessPartial(lib.reader, file[from..]);
  }

  lemma SegmentReadsTheSame<M>(lib: Imports<M>, from: nat, file: Bytes, segment: Bytes)
    requires from <= |file|
    requires var until := from + Parse(lib.reader, file[from..]).consumed;
             until <= |file| && segment == file[from..until]
    ensures Parse(lib.reader, segment).messages == Parse(lib.reader, file[from..]).messages
    ensures !Parse(lib.reader, segment).partial
  {
    var unread := file[from..];
    ConsumedPrefixStandsAlone(lib.reader, unread);
    assert segment == unread[..Parse(lib.reader, unread).consumed];
    ConsumesAllUnlessPartial(lib.reader, segment);
  }

  // ---- The rows are the chunks ----

  /** Chunks laid out as rows: numbered from zero, each with the common total. */
  function Laid(chunks: seq<Chunk>): Rows {
    map k: nat | 0 <= k < |chunks| :: chunks[k].(index := k, total := |chunks|)
  }

  lemma {:induction false} KeysBelow(keys: set<nat>, n: nat)
    requires forall k: nat :: k in keys <==> k < n
    ensures |keys| == n
  {
    if n == 0 {
      assert keys == {};
    } else {
      KeysBelow(keys - {n - 1}, n - 1);
    }
  }

  lemma LaidSize(chunks: seq<Chunk>)
    ensures |Laid(chunks)| == |chunks| && NextIndex(Laid(chunks).Keys) == |chunks|
  {
    KeysBelow(Laid(chunks).Keys, |chunks|);
    assert |Laid(chunks)| == |Laid(chunks).Keys|;
    var next := NextIndex(Laid(chunks).Keys);
    assert next > 0 ==> next - 1 in Laid(chunks).Keys;
    assert next < |chunks| ==> next in Laid(chunks).Keys;
  }

  lemma InsertedRow(a: seq<Chunk>, b: seq<Chunk>, k: nat)
    ensures var inserted := Inserted(Laid(a), b, |a|);
            && (k in inserted <==> k < |a| + |b|)
            && (k in inserted ==> inserted[k].(total := |a| + |b|) == Laid(a + b)[k])
  {
    InsertedAt(Laid(a), b, |a|, k);
    if k < |a| + |b| {
      assert (a + b)[k] == if k < |a| then a[k] else b[k - |a|];
    }
  }

  /** Inserting more chunks at the next free number lays them out behind the others. */
  lemma InsertedIsLaid(a: seq<Chunk>, b: seq<Chunk>)
    ensures !Conflicts(Laid(a), |b|, |a|)
    ensures Retotalled(Inserted(Laid(a), b, |a|)) == Laid(a + b)
  {
    var inserted := Inserted(Laid(a), b, |a|);
    forall k: nat
      ensures k in inserted.Keys <==> k < |a| + |b|
      ensures k in inserted ==> inserted[k].(total := |a| + |b|) == Laid(a + b)[k]
    {
      InsertedRow(a, b, k);
    }
    KeysBelow(inserted.Keys, |a| + |b|);
    assert |inserted| == |inserted.Keys|;
    var after := Retotalled(inserted);
    assert after.Keys == Laid(a + b).Keys;
    assert forall k :: k in after ==> after[k] == Laid(a + b)[k];
  }

  /** The chunks of the committed segments, in order. */
  function AllChunks<M>(lib: Imports<M>, log: seq<Entry>): seq<Chunk> {
    if log == [] then []
    else
      var n := |log| - 1;
      AllChunks(lib, log[..n]) + SegmentChunks(lib, Parse(lib.reader, log[n].segment).messages)
  }

  /** What the database holds: the rows are the chunks of the committed segments, and the record describes the last
      commit. */
  ghost predicate Stored<M>(lib: Imports<M>, db: Db, log: seq<Entry>) {
    && db.rows == Laid(AllChunks(lib, log))
    && (if db.record.Some? then log != [] && Describes(lib, db, log[|log| - 1]) else log == [])
    && forall k :: 0 <= k < |log| ==> !Parse(lib.reader, log[k].segment).partial
  }

  ghost predicate Describes<M>(lib: Imports<M>, db: Db, last: Entry) {
    && db.record == Some(last.record)
    && last.record.chunkCount == |db.rows|
    && last.record.offset <= |last.file|
    && last.record.hash == lib.sha256(last.file[..last.record.offset])
  }

  lemma NoMessagesNoChunks<M>(lib: Imports<M>)
    ensures SegmentChunks(lib, []) == []
  {
  }

  /** The rows that this draft's chunks go behind. */
  function Base(db: Db, d: Draft): Rows
    requires d.Draft?
  {
    if d.replace then map[] else db.rows
  }

  /** The draft would insert chunks under numbers beyond the next free one. */
  predicate SkipsNumbers(db: Db, d: Draft) {
    d.Draft? && !d.replace && d.chunks != [] && |db.rows| < d.first
  }

  /** Chunks that go in without a conflict and without a gap go in behind the others. */
  lemma InsertedBehind(before: seq<Chunk>, chunks: seq<Chunk>, first: nat)
    requires !Conflicts(Laid(before), |chunks|, first) && (chunks != [] ==> first <= |before|)
    ensures Retotalled(Inserted(Laid(before), chunks, first)) == Laid(before + chunks)
  {
    InsertedIsLaid(before, chunks);
    if chunks != [] {
      assert first in Laid(before) <==> first < |before|;
    }
  }

  /** A commit that skips no number lays its chunks out behind the rows that stay, whatever rows its draft was made
      from: a draft from fewer rows meets an id that is taken. */
  lemma CommitRows<M>(lib: Imports<M>, db: Db, file: Bytes, rows: Rows, d: Draft, now: int, before: seq<Chunk>)
    requires DraftOk(lib, db.record, file, rows, d) && Base(db, d) == Laid(before) && !SkipsNumbers(db, d)
    requires Commit(db, d, now).Some?
    ensures var chunks := SegmentChunks(lib, Parse(lib.reader, file[From(d)..]).messages);
            Commit(db, d, now).value.rows == Laid(before + chunks)
  {
    LaidSize(before);
    if d.empty {
      NoMessagesNoChunks(lib);
      assert before + [] == before;
    } else {
      InsertedBehind(before, d.chunks, d.first);
    }
  }

  lemma AllChunksGrow<M>(lib: Imports<M>, kept: seq<Entry>, e: Entry)
    ensures AllChunks(lib, kept + [e]) ==
            AllChunks(lib, kept) + SegmentChunks(lib, Parse(lib.reader, e.segment).messages)
  {
    assert (kept + [e])[..|kept|] == kept;
  }

  lemma EntryStores<M>(lib: Imports<M>, db: Db, kept: seq<Entry>, e: Entry)
    requires forall k :: 0 <= k < |kept| ==> !Parse(lib.reader, kept[k].segment).partial
    requires !Parse(lib.reader, e.segment).partial && Describes(lib, db, e)
    requires db.rows ==
             Laid(AllChunks(lib, kept) + SegmentChunks(lib, Parse(lib.reader, e.segment).messages))
    ensures Stored(lib, db, kept + [e])
  {
    AllChunksGrow(lib, kept, e);
  }

  lemma CommitStaysLaid<M>(lib: Imports<M>, db: Db, log: seq<Entry>, file: Bytes, rows: Rows, d: Draft, now: int)
    requires Stored(lib, db, log) && DraftOk(lib, db.record, file, rows, d) && !SkipsNumbers(db, d)
    requires Commit(db, d, now).Some?
    ensures var after := Commit(db, d, now).value;
            && after.record == Some(Record(d.hash, d.offset, now, |after.rows|))
            && Stored(lib, after, (if d.replace then [] else log) + [EntryOf(file, d, after)])
  {
    var kept := if d.replace then [] else log;
    assert Base(db, d) == Laid(AllChunks(lib, kept));
    CommitRows(lib, db, file, rows, d, now, AllChunks(lib, kept));
    EntryDescribes(lib, db, file, rows, d, now);
    EntryStores(lib, Commit(db, d, now).value, kept, EntryOf(file, d, Commit(db, d, now).value));
  }

  lemma EntryDescribes<M>(lib: Imports<M>, db: Db, file: Bytes, rows: Rows, d: Draft, now: int)
    requires DraftOk(lib, db.record, file, rows, d) && Commit(db, d, now).Some?
    ensures var after := Commit(db, d, now).value;
            var e := EntryOf(file, d, after);
            && after.record == Some(Record(d.hash, d.offset, now, |after.rows|))
            && Describes(lib, after, e) && !Parse(lib.reader, e.segment).partial
            && Parse(lib.reader, e.segment).messages == Parse(lib.reader, file[From(d)..]).messages
  {
    SegmentReadsTheSame(lib, From(d), file, EntryOf(file, d, Commit(db, d, now).value).segment);
  }

  /** A commit of a draft that was made for the record and the rows it meets. */
  lemma CommitStores<M>(lib: Imports<M>, db: Db, log: seq<Entry>, file: Bytes, d: Draft, now: int)
    requires Stored(lib, db, log) && DraftOk(lib, db.record, file, db.rows, d)
    ensures !SkipsNumbers(db, d)
    ensures var after := Commit(db, d, now);
            && after.Some?
            && after.value.record == Some(Record(d.hash, d.offset, now, |after.value.rows|))
            && Stored(lib, after.value, (if d.replace then [] else log) + [EntryOf(file, d, after.value)])
  {
    var before := if d.replace then [] else AllChunks(lib, log);
    assert Base(db, d) == Laid(before);
    LaidSize(before);
    assert Base(db, d).Keys == if d.replace then {} else db.rows.Keys;
    InsertedIsLaid(before, d.chunks);
    CommitStaysLaid(lib, db, log, file, db.rows, d, now);
  }

  // ---- Exactly when the rows stay laid out ----

  /** This event commits a draft that is not a replacement, meets its own record again, and skips numbers: its rows were
      read when there were more than now. */
  ghost predicate Ahead<M>(lib: Imports<M>, w: World, e: Event) {
    && e.TryCommit? && PhaseOf(w, e.who).HasRows?
    && var HasRows(expected, file, rows) := PhaseOf(w, e.who);
    && expected == w.db.record
    && SkipsNumbers(w.db, Prepare(lib, expected, file, rows, e.force))
  }

  ghost predicate NeverAhead<M>(lib: Imports<M>, w: World, events: seq<Event>)
    decreases |events|
  {
    events == [] || (!Ahead(lib, w, events[0]) && NeverAhead(lib, Step(lib, w, events[0]), events[1..]))
  }

  /** At every point of the run the rows are the chunks of the committed segments. */
  ghost predicate AlwaysLaid<M>(lib: Imports<M>, w: World, events: seq<Event>)
    decreases |events|
  {
    && w.db.rows == Laid(AllChunks(lib, w.log))
    && (events == [] || AlwaysLaid(lib, Step(lib, w, events[0]), events[1..]))
  }

  lemma FinishStores<M>(lib: Imports<M>, w: World, who: nat, file: Bytes, rows: Rows, d: Draft, now: int)
    requires Stored(lib, w.db, w.log)
    requires d.Draft? && d.expected == w.db.record ==> DraftOk(lib, d.expected, file, rows, d) && !SkipsNumbers(w.db, d)
    ensures Stored(lib, Finish(w, who, file, d, now).db, Finish(w, who, file, d, now).log)
  {
    if d.Draft? && d.expected == w.db.record && Commit(w.db, d, now).Some? {
      CommitStaysLaid(lib, w.db, w.log, file, rows, d, now);
    }
  }

  lemma StepStores<M>(lib: Imports<M>, w: World, e: Event)
    requires Stored(lib, w.db, w.log) && !Ahead(lib, w, e)
    ensures Stored(lib, Step(lib, w, e).db, Step(lib, w, e).log)
  {
    if e.TryCommit? && PhaseOf(w, e.who).HasRows? {
      var HasRows(expected, file, rows) := PhaseOf(w, e.who);
      var d := Prepare(lib, expected, file, rows, e.force);
      if d.Draft? {
        PreparedIsOk(lib, expected, file, rows, e.force);
      }
      FinishStores(lib, w, e.who, file, rows, d, e.now);
    }
  }

  /** A commit that skips numbers leaves a gap, which no list of chunks laid out has. */
  lemma StaleRowsLeaveAGap(db: Db, chunks: seq<Chunk>, d: Draft, now: int, others: seq<Chunk>)
    requires db.rows == Laid(chunks) && SkipsNumbers(db, d) && d.expected == db.record && !d.empty
    ensures Commit(db, d, now).Some? && Commit(db, d, now).value.rows != Laid(others)
  {
    LaidSize(chunks);
    InsertedAt(db.rows, d.chunks, d.first, |chunks|);
    InsertedAt(db.rows, d.chunks, d.first, d.first);
    var after := Commit(db, d, now).value.rows;
    assert |chunks| !in after && d.first in after;
    assert d.first < |others| ==> |chunks| in Laid(others);
  }

  lemma StepBreaks<M>(lib: Imports<M>, w: World, e: Event)
    requires Stored(lib, w.db, w.log) && Ahead(lib, w, e)
    ensures Step(lib, w, e).db.rows != Laid(AllChunks(lib, Step(lib, w, e).log))
  {
    var HasRows(expected, file, rows) := PhaseOf(w, e.who);
    var d := Prepare(lib, expected, file, rows, e.force);
    PreparedIsOk(lib, expected, file, rows, e.force);
    StaleRowsLeaveAGap(w.db, AllChunks(lib, w.log), d, e.now, AllChunks(lib, Step(lib, w, e).log));
  }

  /** Exactly when the rows stay laid out, over every interleaving of appends, rewrites, forced and other indexings,
      from any database that is: if and only if no commit skips numbers. */
  lemma {:induction false} LaidExactly<M>(lib: Imports<M>, w: World, events: seq<Event>)
    requires Stored(lib, w.db, w.log)
    ensures AlwaysLaid(lib, w, events) <==> NeverAhead(lib, w, events)
    decreases |events|
  {
    if events != [] {
      if Ahead(lib, w, events[0]) {
        StepBreaks(lib, w, events[0]);
      } else {
        StepStores(lib, w, events[0]);
        LaidExactly(lib, Step(lib, w, events[0]), events[1..]);
      }
    }
  }

  lemma {:induction false} RunStores<M>(lib: Imports<M>, w: World, events: seq<Event>)
    requires Stored(lib, w.db, w.log) && NeverAhead(lib, w, events)
    ensures Stored(lib, Run(lib, w, events).db, Run(lib, w, events).log)
    decreases |events|
  {
    if events != [] {
      StepStores(lib, w, events[0]);
      RunStores(lib, Step(lib, w, events[0]), events[1..]);
    }
  }

  // ---- Any run in which no commit brings back a record that is still in someone's hands ----

  predicate RowsKnown(db: Db, phase: Phase) {
    phase.HasRows? && phase.expected == db.record ==> phase.rows == db.rows
  }

  ghost predicate Inv<M>(lib: Imports<M>, w: World) {
    Stored(lib, w.db, w.log) && forall who :: who in w.phases ==> RowsKnown(w.db, w.phases[who])
  }

  /** A commit changes the database only to a record that no indexer in flight has read. */
  ghost predicate FreshStep<M>(lib: Imports<M>, w: World, e: Event) {
    var w' := Step(lib, w, e);
    w'.db != w.db ==>
      forall who :: who in w'.phases && !w'.phases[who].Idle? ==> w'.phases[who].expected != w'.db.record
  }

  ghost predicate FreshRun<M>(lib: Imports<M>, w: World, events: seq<Event>)
    decreases |events|
  {
    events == [] || (FreshStep(lib, w, events[0]) && FreshRun(lib, Step(lib, w, events[0]), events[1..]))
  }

  lemma KnownIsNotAhead<M>(lib: Imports<M>, w: World, e: Event)
    requires Inv(lib, w)
    ensures !Ahead(lib, w, e)
  {
    if e.TryCommit? && PhaseOf(w, e.who).HasRows? {
      var HasRows(expected, file, rows) := PhaseOf(w, e.who);
      var d := Prepare(lib, expected, file, rows, e.force);
      assert RowsKnown(w.db, w.phases[e.who]);
      LaidSize(AllChunks(lib, w.log));
      if d.Draft? {
        PreparedIsOk(lib, expected, file, rows, e.force);
      }
    }
  }

  lemma StepKeeps<M>(lib: Imports<M>, w: World, e: Event)
    requires Inv(lib, w) && FreshStep(lib, w, e)
    ensures Inv(lib, Step(lib, w, e))
  {
    KnownIsNotAhead(lib, w, e);
    StepStores(lib, w, e);
    var w' := Step(lib, w, e);
    forall who | who in w'.phases ensures RowsKnown(w'.db, w'.phases[who]) {
      if who in w.phases {
        assert RowsKnown(w.db, w.phases[who]);
      }
    }
  }

  /** No commit of such a run skips numbers. */
  lemma {:induction false} RunKeeps<M>(lib: Imports<M>, w: World, events: seq<Event>)
    requires Inv(lib, w) && FreshRun(lib, w, events)
    ensures Inv(lib, Run(lib, w, events)) && NeverAhead(lib, w, events)
    decreases |events|
  {
    if events != [] {
      KnownIsNotAhead(lib, w, events[0]);
      StepKeeps(lib, w, events[0]);
      RunKeeps(lib, Step(lib, w, events[0]), events[1..]);
    }
  }

  lemma StartInv<M>(lib: Imports<M>)
    ensures Inv(lib, START)
  {
    assert Laid([]) == map[];
  }

  // ---- What the rows add up to ----

  lemma {:induction false} SumsSplit(a: seq<Chunk>, b: seq<Chunk>, tool: Tool)
    ensures MessageSum(a + b) == MessageSum(a) + MessageSum(b)
    ensures TokenSum(a + b) == TokenSum(a) + TokenSum(b)
    ensures ToolSum(a + b, tool) == ToolSum(a, tool) + ToolSum(b, tool)
  {
    if a == [] {
      assert a + b == b;
    } else {
      assert (a + b)[1..] == a[1..] + b;
      SumsSplit(a[1..], b, tool);
    }
  }

  lemma {:induction false} PrecomputedSplit<M>(lib: Imports<M>, a: seq<M>, b: seq<M>)
    ensures Precomputed(lib, a + b) == Precomputed(lib, a) + Precomputed(lib, b)
  {
    if b == [] {
      assert a + b == a;
    } else {
      assert (a + b)[..|a + b| - 1] == a + b[..|b| - 1];
      PrecomputedSplit(lib, a, b[..|b| - 1]);
    }
  }

  function Segments(log: seq<Entry>): seq<Bytes> {
    seq(|log|, k requires 0 <= k < |log| => log[k].segment)
  }

  lemma SegmentsGrow(log: seq<Entry>, e: Entry)
    ensures Segments(log + [e]) == Segments(log) + [e.segment]
    ensures Segments(log + [e])[..|log|] == Segments(log)
    ensures Joined(Segments(log + [e])) == Joined(Segments(log)) + e.segment
  {
    var segments := Segments(log + [e]);
    assert segments == Segments(log) + [e.segment];
    assert segments[..|log|] == Segments(log);
  }

  /** The chunks of some messages, and the messages, tokens and tool uses that those hold. */
  ghost predicate Accounts(chunks: seq<Chunk>, msgs: seq<Message>, tool: Tool) {
    && MessageSum(chunks) == |msgs|
    && TokenSum(chunks) == Tokens(msgs)
    && ToolSum(chunks, tool) == Count(msgs, tool)
  }

  lemma AccountsTogether(a: seq<Chunk>, b: seq<Chunk>, m: seq<Message>, n: seq<Message>, tool: Tool)
    requires Accounts(a, m, tool) && Accounts(b, n, tool)
    ensures Accounts(a + b, m + n, tool)
  {
    SumsSplit(a, b, tool);
    TokensSplit(m, n);
    CountSplit(m, n, tool);
  }

  lemma {:induction false} AllChunksAccount<M>(lib: Imports<M>, log: seq<Entry>, tool: Tool)
    ensures Accounts(AllChunks(lib, log), Precomputed(lib, ReadApart(lib.reader, Segments(log))), tool)
  {
    if log == [] {
      assert Segments(log) == [];
    } else {
      var n := |log| - 1;
      var init, last := log[..n], Parse(lib.reader, log[n].segment).messages;
      AllChunksAccount(lib, init, tool);
      assert log == init + [log[n]];
      SegmentsGrow(init, log[n]);
      PrecomputedSplit(lib, ReadApart(lib.reader, Segments(init)), last);
      ChunkingConserves(lib.signals, lib.options, Precomputed(lib, last), SegmentChunks(lib, last),
                        |SegmentChunks(lib, last)|, tool);
      AccountsTogether(AllChunks(lib, init), SegmentChunks(lib, last),
                       Precomputed(lib, ReadApart(lib.reader, Segments(init))), Precomputed(lib, last), tool);
    }
  }

  // ---- Main results for every run ----

  /** Over every interleaving of appends, rewrites, forced and other indexings: the rows are exactly the chunks of the
      segments committed since the last replacement, in order, numbered 0..n-1, each with total n; they hold exactly
      those segments' messages, tokens and tool uses; and the record says n and hashes the prefix it was made from. */
  lemma RowsAreTheChunks<M>(lib: Imports<M>, events: seq<Event>, tool: Tool)
    requires NeverAhead(lib, START, events)
    ensures var w := Run(lib, START, events);
            var chunks := AllChunks(lib, w.log);
            && w.db.rows == Laid(chunks)
            && Accounts(chunks, Precomputed(lib, ReadApart(lib.reader, Segments(w.log))), tool)
            && (w.db.record.Some? ==>
                  && w.log != [] && Describes(lib, w.db, w.log[|w.log| - 1])
                  && w.db.record.value.chunkCount == |chunks|)
  {
    StartInv(lib);
    RunStores(lib, START, events);
    AllChunksAccount(lib, Run(lib, START, events).log, tool);
    LaidSize(AllChunks(lib, Run(lib, START, events).log));
  }

  /** Commits at strictly increasing times. */
  ghost predicate ClockAdvances<M>(lib: Imports<M>, w: World, events: seq<Event>)
    decreases |events|
  {
    events == [] ||
    (&& (events[0].TryCommit? && w.db.record.Some? ==> w.db.record.value.stamp < events[0].now)
     && ClockAdvances(lib, Step(lib, w, events[0]), events[1..]))
  }

  /** Nobody in flight has read a record of the future. */
  predicate NoneAhead(w: World) {
    forall who :: who in w.phases && !w.phases[who].Idle? && w.phases[who].expected.Some? ==>
      w.db.record.Some? && w.phases[who].expected.value.stamp <= w.db.record.value.stamp
  }

  lemma ClockFinish(w: World, who: nat, file: Bytes, d: Draft, now: int)
    requires NoneAhead(w) && (w.db.record.Some? ==> w.db.record.value.stamp < now)
    ensures var w' := Finish(w, who, file, d, now);
            && NoneAhead(w')
            && (w'.db != w.db ==>
                  forall k :: k in w'.phases && !w'.phases[k].Idle? ==> w'.phases[k].expected != w'.db.record)
  {
  }

  lemma ClockStep<M>(lib: Imports<M>, w: World, e: Event)
    requires NoneAhead(w) && (e.TryCommit? && w.db.record.Some? ==> w.db.record.value.stamp < e.now)
    ensures NoneAhead(Step(lib, w, e)) && FreshStep(lib, w, e)
  {
    if e.TryCommit? && PhaseOf(w, e.who).HasRows? {
      var HasRows(expected, file, rows) := PhaseOf(w, e.who);
      ClockFinish(w, e.who, file, Prepare(lib, expected, file, rows, e.force), e.now);
    }
  }

  /** If the clock advances between commits, no commit brings back a record in flight. */
  lemma {:induction false} ClockMakesFresh<M>(lib: Imports<M>, w: World, events: seq<Event>)
    requires NoneAhead(w) && ClockAdvances(lib, w, events)
    ensures FreshRun(lib, w, events)
    decreases |events|
  {
    if events != [] {
      ClockStep(lib, w, events[0]);
      ClockMakesFresh(lib, Step(lib, w, events[0]), events[1..]);
    }
  }

  // ---- Runs over a file that only grows ----

  predicate AppendsOnly(e: Event) {
    !e.Rewrite? && !(e.TryCommit? && e.force)
  }

  predicate AppendOnly(events: seq<Event>) {
    forall k :: 0 <= k < |events| ==> AppendsOnly(events[k])
  }

  /** Commits form one chain with growing offsets. */
  ghost predicate Chain(log: seq<Entry>) {
    && (log != [] ==> log[0].expected == None)
    && (forall k :: 0 < k < |log| ==> log[k].expected == Some(log[k - 1].record))
    && (forall j, k :: 0 <= j < k < |log| ==> log[j].record.offset < log[k].record.offset)
  }

  /** The commits cover the file up to the record's offset. */
  ghost predicate Covers<M>(lib: Imports<M>, file: Bytes, record: Option<Record>, log: seq<Entry>) {
    && Chain(log)
    && (record.None? ==> log == [])
    && (record.Some? ==>
          var r := record.value;
          && log != [] && log[|log| - 1].record == r
          && r.offset <= |file|
          && r.hash == lib.sha256(file[..r.offset])
          && Joined(Segments(log)) == file[..r.offset])
  }

  /** A record that was once in the database, and what it says of this snapshot. */
  ghost predicate Seen<M>(lib: Imports<M>, w: World, expected: Option<Record>, file: Bytes) {
    && file <= w.file
    && (expected.Some? ==>
          && (exists k :: 0 <= k < |w.log| && w.log[k].record == expected.value)
          && expected.value.offset <= |file|
          && expected.value.hash == lib.sha256(file[..expected.value.offset]))
  }

  ghost predicate PhaseSeen<M>(lib: Imports<M>, w: World, phase: Phase) {
    match phase
    case Idle => true
    case HasRecord(expected) => Seen(lib, w, expected, w.file)
    case HasFile(expected, file) => Seen(lib, w, expected, file)
    case HasRows(expected, file, _) => Seen(lib, w, expected, file)
  }

  ghost predicate Growing<M>(lib: Imports<M>, w: World) {
    && Covers(lib, w.file, w.db.record, w.log)
    && forall who :: who in w.phases ==> PhaseSeen(lib, w, w.phases[who])
  }

  /** What the commits so far cover. */
  lemma CoveredSoFar<M>(lib: Imports<M>, w: World)
    requires Covers(lib, w.file, w.db.record, w.log)
    ensures OffsetOf(w.db.record) <= |w.file| && Joined(Segments(w.log)) == w.file[..OffsetOf(w.db.record)]
  {
    if w.db.record.None? {
      assert Segments(w.log) == [] && w.file[..0] == [];
    }
  }

  /** A draft over a file that extends what its record says reads on from there, and gets on. */
  lemma DraftExtends<M>(lib: Imports<M>, expected: Option<Record>, file: Bytes, rows: Rows)
    requires expected.Some? ==>
               expected.value.offset <= |file| && expected.value.hash == lib.sha256(file[..expected.value.offset])
    ensures !Replaced(lib, expected, file)
    ensures var d := Prepare(lib, expected, file, rows, false);
            d.Draft? ==> !d.replace && (expected.Some? ==> OffsetOf(expected) < d.offset)
  {
    ConsumesAllUnlessPartial(lib.reader, file[OffsetOf(expected)..]);
  }

  lemma ChainGrows(log: seq<Entry>, e: Entry)
    requires Chain(log)
    requires if log == [] then e.expected == None
             else e.expected == Some(log[|log| - 1].record) && log[|log| - 1].record.offset < e.record.offset
    ensures Chain(log + [e])
  {
  }

  /** The bytes the commits cover, one entry later. */
  lemma PrefixGrows(w: World, e: Entry)
    requires e.file <= w.file && OffsetOf(e.expected) <= e.record.offset <= |e.file|
    requires e.segment == e.file[OffsetOf(e.expected)..e.record.offset]
    requires Joined(Segments(w.log)) == w.file[..OffsetOf(e.expected)]
    ensures e.record.offset <= |w.file| && e.file[..e.record.offset] == w.file[..e.record.offset]
    ensures Joined(Segments(w.log + [e])) == w.file[..e.record.offset]
  {
    var from := OffsetOf(e.expected);
    SegmentsGrow(w.log, e);
    assert e.file[..from] == w.file[..from];
    assert w.file[..e.record.offset] == w.file[..from] + e.segment;
  }

  lemma EntryCovers<M>(lib: Imports<M>, w: World, e: Entry)
    requires Covers(lib, w.file, w.db.record, w.log) && e.file <= w.file && e.expected == w.db.record
    requires OffsetOf(e.expected) <= e.record.offset <= |e.file|
    requires e.expected.Some? ==> e.expected.value.offset < e.record.offset
    requires e.segment == e.file[OffsetOf(e.expected)..e.record.offset]
    requires e.record.hash == lib.sha256(e.file[..e.record.offset])
    ensures Covers(lib, w.file, Some(e.record), w.log + [e])
  {
    CoveredSoFar(lib, w);
    PrefixGrows(w, e);
    ChainGrows(w.log, e);
  }

  /** After a commit no other indexer's record is the current one. */
  lemma OthersFallBehind<M>(lib: Imports<M>, w: World, w': World, expected: Option<Record>, file: Bytes)
    requires Chain(w'.log) && w.log < w'.log && w'.db.record == Some(w'.log[|w'.log| - 1].record)
    requires w'.file == w.file
    requires Seen(lib, w, expected, file)
    ensures Seen(lib, w', expected, file) && expected != w'.db.record
  {
    if expected.Some? {
      var k :| 0 <= k < |w.log| && w.log[k].record == expected.value;
      assert w'.log[k].record == expected.value;
    }
  }

  lemma EntryGrows<M>(lib: Imports<M>, w: World, who: nat, db: Db, e: Entry)
    requires Growing(lib, w) && db.record == Some(e.record) && Covers(lib, w.file, db.record, w.log + [e])
    ensures var w' := w.(phases := w.phases[who := Idle], db := db, log := w.log + [e]);
            && Growing(lib, w')
            && forall other :: other in w'.phases && !w'.phases[other].Idle? ==> w'.phases[other].expected != db.record
  {
    var w' := w.(phases := w.phases[who := Idle], db := db, log := w.log + [e]);
    forall other | other in w'.phases && !w'.phases[other].Idle?
      ensures PhaseSeen(lib, w', w'.phases[other]) && w'.phases[other].expected != db.record
    {
      var phase := w'.phases[other];
      assert PhaseSeen(lib, w, w.phases[other]);
      OthersFallBehind(lib, w, w', phase.expected, if phase.HasRecord? then w.file else phase.file);
    }
  }

  /** An indexer's own step changes only its phase. */
  lemma PhaseGrows<M>(lib: Imports<M>, w: World, who: nat, phase: Phase)
    requires Growing(lib, w) && PhaseSeen(lib, w, phase)
    ensures Growing(lib, w.(phases := w.phases[who := phase]))
  {
    var w' := w.(phases := w.phases[who := phase]);
    forall other | other in w'.phases ensures PhaseSeen(lib, w', w'.phases[other]) {
      assert PhaseSeen(lib, w, w'.phases[other]);
      SamePhase(lib, w, w', w'.phases[other]);
    }
  }

  lemma SamePhase<M>(lib: Imports<M>, w: World, w': World, phase: Phase)
    requires w'.file == w.file && w'.db == w.db && w'.log == w.log && PhaseSeen(lib, w, phase)
    ensures PhaseSeen(lib, w', phase)
  {
  }

  lemma AppendGrows<M>(lib: Imports<M>, w: World, bytes: Bytes)
    requires Growing(lib, w)
    ensures Growing(lib, Step(lib, w, Append(bytes)))
  {
    var w' := Step(lib, w, Append(bytes));
    if w.db.record.Some? {
      assert w'.file[..w.db.record.value.offset] == w.file[..w.db.record.value.offset];
    }
    forall who | who in w'.phases ensures PhaseSeen(lib, w', w'.phases[who]) {
      var phase := w.phases[who];
      assert PhaseSeen(lib, w, phase);
      if phase.HasRecord? && phase.expected.Some? {
        assert w'.file[..phase.expected.value.offset] == w.file[..phase.expected.value.offset];
      }
    }
  }

  lemma ReadGrows<M>(lib: Imports<M>, w: World, e: Event)
    requires Growing(lib, w) && (e.ReadRecord? || e.ReadFile? || e.ReadRows?)
    ensures Growing(lib, Step(lib, w, e))
  {
    var own := PhaseOf(w, e.who);
    assert PhaseSeen(lib, w, own);
    var next := if e.ReadRecord? then HasRecord(w.db.record)
                else if e.ReadFile? && own.HasRecord? then HasFile(own.expected, w.file)
                else if e.ReadRows? && own.HasFile? then HasRows(own.expected, own.file, w.db.rows)
                else own;
    assert e.ReadRecord? ==> Seen(lib, w, w.db.record, w.file);
    PhaseGrows(lib, w, e.who, next);
  }

  lemma FinishGrows<M>(lib: Imports<M>, w: World, who: nat, file: Bytes, d: Draft, now: int)
    requires Growing(lib, w) && Stored(lib, w.db, w.log)
    requires d.Draft? ==> Seen(lib, w, d.expected, file) && !d.replace
    requires d.Draft? && d.expected == w.db.record ==> DraftOk(lib, d.expected, file, w.db.rows, d)
    requires d.Draft? && d.expected.Some? ==> OffsetOf(d.expected) < d.offset
    ensures var w' := Finish(w, who, file, d, now);
            && Growing(lib, w')
            && (w'.db != w.db ==>
                  forall k :: k in w'.phases && !w'.phases[k].Idle? ==> w'.phases[k].expected != w'.db.record)
  {
    if d.Draft? && d.expected == w.db.record {
      CommitStores(lib, w.db, w.log, file, d, now);
      var db := Commit(w.db, d, now).value;
      EntryCovers(lib, w, EntryOf(file, d, db));
      EntryGrows(lib, w, who, db, EntryOf(file, d, db));
    } else {
      PhaseGrows(lib, w, who, Idle);
    }
  }

  lemma CommitGrows<M>(lib: Imports<M>, w: World, who: nat, now: int)
    requires Growing(lib, w) && Inv(lib, w)
    ensures Growing(lib, Step(lib, w, TryCommit(who, now, false))) && FreshStep(lib, w, TryCommit(who, now, false))
  {
    if PhaseOf(w, who).HasRows? {
      var HasRows(expected, file, rows) := PhaseOf(w, who);
      assert PhaseSeen(lib, w, w.phases[who]) && RowsKnown(w.db, w.phases[who]);
      var d := Prepare(lib, expected, file, rows, false);
      DraftExtends(lib, expected, file, rows);
      if d.Draft? {
        PreparedIsOk(lib, expected, file, rows, false);
      }
      FinishGrows(lib, w, who, file, d, now);
    }
  }

  lemma StepGrows<M>(lib: Imports<M>, w: World, e: Event)
    requires Growing(lib, w) && Inv(lib, w) && AppendsOnly(e)
    ensures Growing(lib, Step(lib, w, e)) && FreshStep(lib, w, e)
  {
    match e
    case Append(bytes) => AppendGrows(lib, w, bytes);
    case TryCommit(who, now, _) => CommitGrows(lib, w, who, now);
    case _ => ReadGrows(lib, w, e);
  }

  /** While the file only grows, no commit brings back a record in flight, whatever the clock says. */
  lemma {:induction false} AppendingIsFresh<M>(lib: Imports<M>, w: World, events: seq<Event>)
    requires Growing(lib, w) && Inv(lib, w) && AppendOnly(events)
    ensures FreshRun(lib, w, events) && Growing(lib, Run(lib, w, events)) && Inv(lib, Run(lib, w, events))
    decreases |events|
  {
    if events != [] {
      StepGrows(lib, w, events[0]);
      StepKeeps(lib, w, events[0]);
      AppendingIsFresh(lib, Step(lib, w, events[0]), events[1..]);
    }
  }

  lemma GrowsFromStart<M>(lib: Imports<M>, events: seq<Event>)
    requires AppendOnly(events)
    ensures FreshRun(lib, START, events) && Growing(lib, Run(lib, START, events))
  {
    StartInv(lib);
    AppendingIsFresh(lib, START, events);
  }

  // ---- Main results for a file that only grows ----

  /** At most one commit succeeds from any record, and every commit moves the offset forward. */
  lemma OneCommitPerRecord<M>(lib: Imports<M>, events: seq<Event>, j: nat, k: nat)
    requires AppendOnly(events) && j < k < |Run(lib, START, events).log|
    ensures var log := Run(lib, START, events).log;
            log[j].expected != log[k].expected && log[j].record.offset < log[k].record.offset
  {
    GrowsFromStart(lib, events);
    var log := Run(lib, START, events).log;
    assert log[k].expected == Some(log[k - 1].record);
    if j > 0 {
      assert log[j].expected == Some(log[j - 1].record);
    }
  }

  /** The committed segments are, in order and without overlap, the indexed prefix of the file, and the rows are
      exactly their chunks. */
  lemma RowsMatchTheFile<M>(lib: Imports<M>, events: seq<Event>)
    requires AppendOnly(events)
    ensures var w := Run(lib, START, events);
            && w.db.rows == Laid(AllChunks(lib, w.log))
            && (w.db.record.Some? ==>
                  && w.db.record.value.chunkCount == |w.db.rows| == |AllChunks(lib, w.log)|
                  && w.db.record.value.offset <= |w.file|
                  && Joined(Segments(w.log)) == w.file[..w.db.record.value.offset])
  {
    GrowsFromStart(lib, events);
    StartInv(lib);
    RunKeeps(lib, START, events);
    RowsAreTheChunks(lib, events, ReadTool);
    LaidSize(AllChunks(lib, Run(lib, START, events).log));
  }

  /** If every instalment resumes where the ones before it stopped, the rows hold the messages, tokens and tool uses of
      the indexed prefix read once from scratch. */
  lemma RowsMatchOneReading<M>(lib: Imports<M>, events: seq<Event>, tool: Tool)
    requires AppendOnly(events) && Lawful(lib.reader)
    requires AllAgree(lib.reader, Segments(Run(lib, START, events).log))
    requires Run(lib, START, events).db.record.Some?
    ensures var w := Run(lib, START, events);
            var offset := w.db.record.value.offset;
            && offset <= |w.file|
            && w.db.rows == Laid(AllChunks(lib, w.log))
            && Accounts(AllChunks(lib, w.log), Precomputed(lib, Parse(lib.reader, w.file[..offset]).messages), tool)
  {
    RowsMatchTheFile(lib, events);
    GrowsFromStart(lib, events);
    StartInv(lib);
    RunKeeps(lib, START, events);
    RowsAreTheChunks(lib, events, tool);
    ManyInstalments(lib.reader, Segments(Run(lib, START, events).log));
  }

  /** No interleaving makes an indexer treat the file as replaced, or draft an offset behind the record's. */
  lemma NeverReplaces<M>(lib: Imports<M>, events: seq<Event>, who: nat)
    requires AppendOnly(events) && PhaseOf(Run(lib, START, events), who).HasRows?
    ensures var HasRows(expected, file, rows) := PhaseOf(Run(lib, START, events), who);
            var d := Prepare(lib, expected, file, rows, false);
            && !Replaced(lib, expected, file)
            && (d.Draft? ==> !d.replace && OffsetOf(expected) <= d.offset)
  {
    GrowsFromStart(lib, events);
    var w := Run(lib, START, events);
    assert PhaseSeen(lib, w, w.phases[who]);
    var HasRows(expected, file, rows) := PhaseOf(w, who);
    DraftExtends(lib, expected, file, rows);
  }
}
