/** Incremental indexing of one transcript file (lib/brain/index-transcripts.js): the resumable read, the
    draft of new chunk rows, and the guarded transaction that commits it. */
module TranscriptIndex {
  import opened Basics
  import opened Jsonl
  import opened Chunker

  /** What indexing imports: the JSONL reader, the normalizer of one parsed line (none for a line that is not
      a user or assistant message), SHA-256, and the segmenter's patterns and options. */
  datatype Imports<!M> = Imports(reader: Reader<M>, precompute: M -> Option<Message>, sha256: Bytes -> string,
                                 signals: Signals, options: Options)

  /** The `transcript_index` row, without the columns that are constant here. */
  datatype Record = Record(hash: string, offset: nat, stamp: int, chunkCount: nat)
  /** The `chunks` rows of the source, keyed by the number at the end of their ids. */
  type Rows = map<nat, Chunk>
  datatype Db = Db(record: Option<Record>, rows: Rows)

  // ---- Spec functions ----

  function Precomputed<M>(lib: Imports<M>, raw: seq<M>): seq<Message> {
    if raw == [] then []
    else
      var n := |raw| - 1;
      Precomputed(lib, raw[..n]) + if lib.precompute(raw[n]).Some? then [lib.precompute(raw[n]).value] else []
  }

  /** The chunks of a list of parsed lines. */
  ghost predicate ChunkedAs<M>(lib: Imports<M>, raw: seq<M>, chunks: seq<Chunk>) {
    var msgs := Precomputed(lib, raw);
    ChunksOf(msgs, Segmentation(lib.signals, lib.options, msgs), chunks, |chunks|)
  }

  function SegmentChunks<M>(lib: Imports<M>, raw: seq<M>): (chunks: seq<Chunk>)
    ensures ChunkedAs(lib, raw, chunks)
  {
    var msgs := Precomputed(lib, raw);
    var spans := Segmentation(lib.signals, lib.options, msgs);
    SegmentationIsSound(lib.signals, lib.options, msgs);
    assert forall s :: s in spans ==> Maximal(lib.signals, lib.options, msgs, s);
    seq(|spans|, k requires 0 <= k < |spans| => ChunkOf(msgs, spans[k], k, |spans|))
  }

  /** One past the largest number in use. */
  ghost function NextIndex(keys: set<nat>): (n: nat)
    ensures forall k :: k in keys ==> k < n
    ensures n > 0 ==> n - 1 in keys
  {
    if keys == {} then 0
    else
      var k :| k in keys;
      var n := NextIndex(keys - {k});
      assert keys == (keys - {k}) + {k};
      if k < n then n else k + 1
  }

  datatype Draft = Nothing | ForceRefused |
    Draft(expected: Option<Record>, replace: bool, empty: bool, chunks: seq<Chunk>, first: nat, offset: nat,
          hash: string)

  function OffsetOf(record: Option<Record>): nat {
    if record.Some? then record.value.offset else 0
  }

  /** The file is no longer an extension of what was indexed. */
  predicate Replaced<M>(lib: Imports<M>, expected: Option<Record>, file: Bytes) {
    && expected.Some?
    && (|file| < expected.value.offset || lib.sha256(file[..expected.value.offset]) != expected.value.hash)
  }

  /** The draft for what was parsed from `from` on. */
  ghost function DraftOf<M>(lib: Imports<M>, expected: Option<Record>, file: Bytes, keys: set<nat>, replace: bool,
                            from: nat, parsed: Parsed<M>): Draft {
    var offset := if replace && parsed.messages == [] && parsed.invalid && !parsed.partial then |file|
                  else from + parsed.consumed;
    var hash := lib.sha256(if offset <= |file| then file[..offset] else file);
    if parsed.messages == [] then
      if parsed.partial || (!replace && parsed.invalid) then Nothing
      else Draft(expected, replace, true, [], 0, offset, hash)
    else
      Draft(expected, replace, false, SegmentChunks(lib, parsed.messages), NextIndex(keys), offset, hash)
  }

  /** Everything that happens before the transaction, from the record, file and rows that were read. */
  ghost function Prepare<M>(lib: Imports<M>, expected: Option<Record>, file: Bytes, rows: Rows, force: bool): Draft {
    var replace := force || Replaced(lib, expected, file);
    var from := if replace then 0 else OffsetOf(expected);
    if expected.Some? && !replace && |file| == from then Nothing
    else
      var parsed := Parse(lib.reader, if from <= |file| then file[from..] else []);
      if force && (parsed.invalid || parsed.partial) then ForceRefused
      else DraftOf(lib, expected, file, if replace then {} else rows.Keys, replace, from, parsed)
  }

  function Numbered(chunk: Chunk, index: nat): Chunk {
    chunk.(index := index)
  }

  function Inserted(rows: Rows, chunks: seq<Chunk>, first: nat): Rows {
    if chunks == [] then rows
    else
      var n := |chunks| - 1;
      Inserted(rows, chunks[..n], first)[first + n := Numbered(chunks[n], first + n)]
  }

  lemma {:induction false} InsertedAt(rows: Rows, chunks: seq<Chunk>, first: nat, k: nat)
    ensures k in Inserted(rows, chunks, first) <==> k in rows || first <= k < first + |chunks|
    ensures first <= k < first + |chunks| ==> Inserted(rows, chunks, first)[k] == Numbered(chunks[k - first], k)
    ensures k in rows && !(first <= k < first + |chunks|) ==> Inserted(rows, chunks, first)[k] == rows[k]
  {
    if chunks != [] {
      InsertedAt(rows, chunks[..|chunks| - 1], first, k);
    }
  }

  function Retotalled(rows: Rows): Rows {
    map k | k in rows :: rows[k].(total := |rows|)
  }

  predicate Conflicts(rows: Rows, count: nat, first: nat) {
    exists k :: first <= k < first + count && k in rows
  }

  /** The transaction: none if the record changed meanwhile or a row's id is taken. */
  function Commit(db: Db, d: Draft, now: int): Option<Db>
    requires d.Draft?
  {
    if d.expected != db.record then None
    else
      var base: Rows := if d.replace then map[] else db.rows;
      if Conflicts(base, |d.chunks|, d.first) then None
      else
        var rows := if d.empty then base else Retotalled(Inserted(base, d.chunks, d.first));
        Some(Db(Some(Record(d.hash, d.offset, now, |rows|)), rows))
  }

  // ---- Indexing as it runs ----

  datatype Outcome = Indexed(inserted: nat) | Skipped | RefusedForce | ChangedConcurrently | IdConflict

  class TranscriptDb {
    var record: Option<Record>
    var rows: Rows

    constructor ()
      ensures record == None && rows == map[]
    {
      record, rows := None, map[];
    }

    function State(): Db
      reads this
    {
      Db(record, rows)
    }

    method NextChunkIndex(rows: Rows) returns (next: nat)
      ensures next == NextIndex(rows.Keys)
    {
      next := 0;
      var todo := rows.Keys;
      ghost var done := {};
      while todo != {}
        invariant todo + done == rows.Keys
        invariant forall k :: k in done ==> k < next
        invariant next > 0 ==> next - 1 in done
        decreases todo
      {
        var k :| k in todo;
        next := if k < next then next else k + 1;
        todo, done := todo - {k}, done + {k};
      }
    }

    /** Insert the rows one by one, then backfill every total. Nothing is kept if an id is taken. */
    method InsertRows(base: Rows, chunks: seq<Chunk>, first: nat) returns (ok: bool, r: Rows)
      ensures ok <==> !Conflicts(base, |chunks|, first)
      ensures ok ==> r == Retotalled(Inserted(base, chunks, first))
    {
      r := base;
      var i := 0;
      while i < |chunks|
        invariant 0 <= i <= |chunks|
        invariant r == Inserted(base, chunks[..i], first)
        invariant forall k :: first <= k < first + i ==> k !in base
      {
        InsertedAt(base, chunks[..i], first, first + i);
        if first + i in r {
          return false, r;
        }
        assert chunks[..i + 1][..i] == chunks[..i];
        r := r[first + i := Numbered(chunks[i], first + i)];
        i := i + 1;
      }
      assert chunks[..i] == chunks;
      r := BackfillTotals(r);
      ok := true;
    }

    method BackfillTotals(rows: Rows) returns (r: Rows)
      ensures r == Retotalled(rows)
    {
      r := rows;
      var todo := rows.Keys;
      while todo != {}
        invariant todo <= rows.Keys && r.Keys == rows.Keys
        invariant forall k :: k in rows ==> r[k] == if k in todo then rows[k] else rows[k].(total := |rows|)
        decreases todo
      {
        var k :| k in todo;
        r := r[k := r[k].(total := |rows|)];
        todo := todo - {k};
      }
    }

    method PrecomputeMessages<M>(lib: Imports<M>, raw: seq<M>) returns (msgs: seq<Message>)
      ensures msgs == Precomputed(lib, raw)
    {
      msgs := [];
      for i := 0 to |raw|
        invariant msgs == Precomputed(lib, raw[..i])
      {
        assert raw[..i + 1][..i] == raw[..i];
        var msg := lib.precompute(raw[i]);
        if msg.Some? {
          msgs := msgs + [msg.value];
        }
      }
      assert raw[..|raw|] == raw;
    }

    method ChunkRaw<M>(lib: Imports<M>, raw: seq<M>) returns (chunks: seq<Chunk>)
      ensures chunks == SegmentChunks(lib, raw)
    {
      var msgs := PrecomputeMessages(lib, raw);
      chunks := ChunkMessages(lib.signals, lib.options, msgs);
      ChunksAreDetermined(msgs, Segmentation(lib.signals, lib.options, msgs), chunks, SegmentChunks(lib, raw));
    }

    /** The transaction for a file that yielded no message. */
    method CommitEmpty(d: Draft, now: int)
      requires d.Draft? && d.empty && d.chunks == [] && d.expected == record
      modifies this
      ensures Commit(old(State()), d, now) == Some(State())
    {
      if d.replace {
        rows := map[];
      }
      record := Some(Record(d.hash, d.offset, now, |rows|));
    }

    /** The transaction that inserts chunks. */
    method CommitChunks(d: Draft, now: int) returns (ok: bool)
      requires d.Draft? && !d.empty && d.expected == record
      modifies this
      ensures var after := Commit(old(State()), d, now);
              if after.Some? then ok && State() == after.value else !ok && State() == old(State())
    {
      var inserted;
      ok, inserted := InsertRows(if d.replace then map[] else rows, d.chunks, d.first);
      if ok {
        rows := inserted;
        record := Some(Record(d.hash, d.offset, now, |rows|));
      }
    }

    /** The draft for what was parsed from `from` on. */
    method FinishDraft<M>(lib: Imports<M>, file: Bytes, kept: Rows, replace: bool, from: nat, parsed: Parsed<M>)
      returns (d: Draft)
      ensures d == DraftOf(lib, record, file, kept.Keys, replace, from, parsed)
    {
      var offset := if replace && parsed.messages == [] && parsed.invalid && !parsed.partial then |file|
                    else from + parsed.consumed;
      var hash := lib.sha256(if offset <= |file| then file[..offset] else file);
      if parsed.messages == [] {
        if parsed.partial || (!replace && parsed.invalid) {
          return Nothing;
        }
        return Draft(record, replace, true, [], 0, offset, hash);
      }
      var chunks := ChunkRaw(lib, parsed.messages);
      var first := NextChunkIndex(kept);
      return Draft(record, replace, false, chunks, first, offset, hash);
    }

    /** Everything up to the transaction. */
    method PrepareDraft<M>(lib: Imports<M>, file: Bytes, force: bool) returns (d: Draft)
      ensures d == Prepare(lib, record, file, rows, force)
    {
      var replace := force || Replaced(lib, record, file);
      var from := if replace then 0 else OffsetOf(record);
      if record.Some? && !replace && |file| == from {
        return Nothing;
      }
      var parsed := ParseConsumableJsonl(lib.reader, if from <= |file| then file[from..] else []);
      if force && (parsed.invalid || parsed.partial) {
        return ForceRefused;
      }
      var kept: Rows := if replace then map[] else rows;
      assert kept.Keys == if replace then {} else rows.Keys;
      d := FinishDraft(lib, file, kept, replace, from, parsed);
    }

    /** One uninterrupted indexing of the file as it stands. */
    method IndexFile<M>(lib: Imports<M>, file: Bytes, now: int, force: bool) returns (r: Outcome)
      modifies this
      ensures var d := Prepare(lib, old(record), file, old(rows), force);
              if d.Draft? then
                var after := Commit(old(State()), d, now);
                if after.Some? then State() == after.value && r == (if d.empty then Skipped else Indexed(|d.chunks|))
                else State() == old(State()) && r == IdConflict
              else State() == old(State()) && r == if d.ForceRefused? then RefusedForce else Skipped
    {
      var d := PrepareDraft(lib, file, force);
      if !d.Draft? {
        return if d.ForceRefused? then RefusedForce else Skipped;
      }
      if d.empty {
        CommitEmpty(d, now);
        return Skipped;
      }
      var ok := CommitChunks(d, now);
      return if ok then Indexed(|d.chunks|) else IdConflict;
    }
  }

  lemma ChunksAreDetermined(msgs: seq<Message>, spans: seq<Span>, a: seq<Chunk>, b: seq<Chunk>)
    requires ChunksOf(msgs, spans, a, |a|) && ChunksOf(msgs, spans, b, |b|)
    ensures a == b
  {
  }
}
