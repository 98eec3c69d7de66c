/** The resumable JSONL reader (lib/brain/index-transcripts.js). Decoding and JSON.parse of one record,
    and the test for a blank record, are left to a reader. */
module Jsonl {
  import opened Basics

  const NEWLINE: byte := 10

  datatype Reader<!M> = Reader(json: Bytes -> Option<M>, blank: Bytes -> bool)

  /** The empty record trims to nothing. */
  predicate Lawful<M>(reader: Reader<M>) {
    reader.blank([])
  }

  datatype Parsed<+M> = Parsed(messages: seq<M>, consumed: nat, invalid: bool, partial: bool)

  predicate IsRecordEnd(buffer: Bytes, n: nat) {
    && n <= |buffer|
    && (forall i :: 0 <= i < n ==> buffer[i] != NEWLINE)
    && (n < |buffer| ==> buffer[n] == NEWLINE)
  }

  /** The first newline at or after `k`, or the end of the buffer. */
  function NewlineFrom(buffer: Bytes, k: nat): (n: nat)
    requires k <= |buffer|
    ensures k <= n <= |buffer|
    decreases |buffer| - k
  {
    if k == |buffer| || buffer[k] == NEWLINE then k else NewlineFrom(buffer, k + 1)
  }

  /** Where the first record ends: at the first newline, or with the buffer. */
  function RecordEnd(buffer: Bytes): (n: nat)
    ensures n <= |buffer|
  {
    NewlineFrom(buffer, 0)
  }

  lemma {:induction false} NewlineFromIsFirst(buffer: Bytes, k: nat)
    requires k <= |buffer|
    ensures var n := NewlineFrom(buffer, k);
            (forall i :: k <= i < n ==> buffer[i] != NEWLINE) && (n < |buffer| ==> buffer[n] == NEWLINE)
    decreases |buffer| - k
  {
    if k < |buffer| && buffer[k] != NEWLINE {
      NewlineFromIsFirst(buffer, k + 1);
    }
  }

  lemma EndsRecord(buffer: Bytes)
    ensures IsRecordEnd(buffer, RecordEnd(buffer))
  {
    NewlineFromIsFirst(buffer, 0);
  }

  lemma OnlyRecordEnd(buffer: Bytes, n: nat)
    requires IsRecordEnd(buffer, n)
    ensures RecordEnd(buffer) == n
  {
    EndsRecord(buffer);
  }

  function NextRecord(buffer: Bytes): (n: nat)
    ensures n <= |buffer|
    ensures buffer != [] ==> n > 0
  {
    if RecordEnd(buffer) < |buffer| then RecordEnd(buffer) + 1 else |buffer|
  }

  function After<M>(messages: seq<M>, consumed: nat, invalid: bool, rest: Parsed<M>): Parsed<M> {
    Parsed(messages + rest.messages, consumed + rest.consumed, invalid || rest.invalid, rest.partial)
  }

  datatype Reading<+M> = Reading(messages: seq<M>, malformed: bool)

  /** What one record's text yields. */
  function Read<M>(reader: Reader<M>, text: Bytes): Reading<M> {
    if reader.blank(text) then Reading([], false)
    else if reader.json(text).Some? then Reading([reader.json(text).value], false)
    else Reading([], true)
  }

  /** Record by record: a blank one is passed over, a malformed one is skipped if a newline ends it and
      stops the reading if not. */
  function Parse<M>(reader: Reader<M>, buffer: Bytes): Parsed<M>
    decreases |buffer|, reader
  {
    if buffer == [] then Parsed([], 0, false, false)
    else
      var reading := Read(reader, buffer[..RecordEnd(buffer)]);
      if reading.malformed && RecordEnd(buffer) == |buffer| then Parsed([], 0, true, true)
      else
        After(reading.messages, NextRecord(buffer), reading.malformed, Parse(reader, buffer[NextRecord(buffer)..]))
  }

  lemma AfterTwice<M>(m1: seq<M>, k1: nat, i1: bool, m2: seq<M>, k2: nat, i2: bool, rest: Parsed<M>)
    ensures After(m1, k1, i1, After(m2, k2, i2, rest)) == After(m1 + m2, k1 + k2, i1 || i2, rest)
  {
    assert m1 + (m2 + rest.messages) == m1 + m2 + rest.messages;
  }

  /** The reader's state in the middle of the buffer. */
  ghost predicate ParsedSoFar<M>(reader: Reader<M>, buffer: Bytes, messages: seq<M>, cursor: nat, invalid: bool,
                                 partial: bool)
  {
    && cursor <= |buffer|
    && Parse(reader, buffer) == if partial then Parsed(messages, cursor, true, true)
                                else After(messages, cursor, invalid, Parse(reader, buffer[cursor..]))
  }

  lemma ParseStep<M>(reader: Reader<M>, buffer: Bytes, messages: seq<M>, cursor: nat, invalid: bool)
    requires cursor < |buffer| && ParsedSoFar(reader, buffer, messages, cursor, invalid, false)
    ensures var rest := buffer[cursor..];
            var reading := Read(reader, rest[..RecordEnd(rest)]);
            if reading.malformed && RecordEnd(rest) == |rest| then
              ParsedSoFar(reader, buffer, messages, cursor, true, true)
            else
              ParsedSoFar(reader, buffer, messages + reading.messages, cursor + NextRecord(rest),
                          invalid || reading.malformed, false)
  {
    var rest := buffer[cursor..];
    var next := cursor + NextRecord(rest);
    var reading := Read(reader, rest[..RecordEnd(rest)]);
    assert rest[NextRecord(rest)..] == buffer[next..];
    AfterTwice(messages, cursor, invalid, reading.messages, NextRecord(rest), reading.malformed,
               Parse(reader, buffer[next..]));
  }

  lemma ParsedToEnd<M>(reader: Reader<M>, buffer: Bytes, messages: seq<M>, cursor: nat, invalid: bool)
    requires cursor == |buffer| && ParsedSoFar(reader, buffer, messages, cursor, invalid, false)
    ensures Parse(reader, buffer) == Parsed(messages, cursor, invalid, false)
  {
    assert buffer[cursor..] == [] && messages + [] == messages;
  }

  method ParseConsumableJsonl<M>(reader: Reader<M>, buffer: Bytes) returns (r: Parsed<M>)
    ensures r == Parse(reader, buffer)
  {
    var messages: seq<M>, cursor, consumed, invalid, partial := [], 0, 0, false, false;
    while cursor < |buffer| && !partial
      invariant 0 <= cursor <= |buffer| && consumed == cursor
      invariant partial ==> invalid
      invariant ParsedSoFar(reader, buffer, messages, cursor, invalid, partial)
      decreases |buffer| - cursor, !partial
    {
      var rest := buffer[cursor..];
      var recordEnd := RecordEnd(rest);
      var nextCursor := cursor + NextRecord(rest);
      var text := rest[..recordEnd];
      ParseStep(reader, buffer, messages, cursor, invalid);
      assert messages + [] == messages;
      if reader.blank(text) {
        consumed, cursor := nextCursor, nextCursor;
      } else {
        var parsed := reader.json(text);
        if parsed.Some? {
          messages := messages + [parsed.value];
          consumed, cursor := nextCursor, nextCursor;
        } else {
          invalid := true;
          if recordEnd == |rest| {
            partial := true;
          } else {
            consumed, cursor := nextCursor, nextCursor;
          }
        }
      }
    }
    if !partial {
      ParsedToEnd(reader, buffer, messages, cursor, invalid);
    }
    return Parsed(messages, consumed, invalid, partial);
  }

  /** The buffer is consumed to the end exactly when the last record is not partial; so the offset that
      indexing substitutes for an all-malformed replacement is the consumed offset anyway. */
  lemma {:induction false} ConsumesAllUnlessPartial<M>(reader: Reader<M>, buffer: Bytes)
    ensures var p := Parse(reader, buffer);
            && p.consumed <= |buffer|
            && (p.consumed == |buffer| <==> !p.partial)
            && (p.partial ==> p.invalid)
            && (p.messages != [] ==> p.consumed > 0)
    decreases |buffer|
  {
    if buffer != [] {
      ConsumesAllUnlessPartial(reader, buffer[NextRecord(buffer)..]);
    }
  }

  /** Reading only the consumed prefix gives the same messages, and nothing is left over. */
  predicate PrefixReadsAs<M(==)>(reader: Reader<M>, buffer: Bytes) {
    var p := Parse(reader, buffer);
    && p.consumed <= |buffer|
    && Parse(reader, buffer[..p.consumed]).messages == p.messages
    && Parse(reader, buffer[..p.consumed]).consumed == p.consumed
  }

  lemma {:induction false} ConsumedPrefixStandsAlone<M>(reader: Reader<M>, buffer: Bytes)
    ensures PrefixReadsAs(reader, buffer)
    decreases |buffer|
  {
    ConsumesAllUnlessPartial(reader, buffer);
    var p := Parse(reader, buffer);
    if p.consumed == |buffer| {
      assert buffer[..p.consumed] == buffer;
    } else if p.consumed > 0 {
      ConsumedPrefixStandsAlone(reader, buffer[NextRecord(buffer)..]);
      PrefixStep(reader, buffer);
    }
  }

  lemma PrefixStep<M>(reader: Reader<M>, buffer: Bytes)
    requires RecordEnd(buffer) < |buffer|
    requires PrefixReadsAs(reader, buffer[NextRecord(buffer)..])
    ensures PrefixReadsAs(reader, buffer)
  {
    var record, rest := buffer[..NextRecord(buffer)], buffer[NextRecord(buffer)..];
    RecordAlone(buffer);
    assert record + rest == buffer;
    PrefixOfRecordAnd(reader, record, rest);
  }

  lemma PrefixOfRecordAnd<M>(reader: Reader<M>, record: Bytes, rest: Bytes)
    requires RecordEnd(record) < |record| == NextRecord(record)
    requires PrefixReadsAs(reader, rest)
    ensures PrefixReadsAs(reader, record + rest)
  {
    var consumed := Parse(reader, rest).consumed;
    SameRecordThen(reader, record, rest);
    SameRecordThen(reader, record, rest[..consumed]);
    assert (record + rest)[..|record| + consumed] == record + rest[..consumed];
  }

  /** A complete record, then something else. */
  lemma SameRecordThen<M>(reader: Reader<M>, record: Bytes, rest: Bytes)
    requires RecordEnd(record) < |record| == NextRecord(record)
    ensures var reading := Read(reader, record[..RecordEnd(record)]);
            Parse(reader, record + rest) == After(reading.messages, |record|, reading.malformed, Parse(reader, rest))
  {
    SameFirstRecord(reader, record, rest);
    assert record[|record|..] + rest == rest;
  }

  /** A complete first record, cut out. */
  lemma RecordAlone(buffer: Bytes)
    requires RecordEnd(buffer) < |buffer|
    ensures RecordEnd(buffer[..NextRecord(buffer)]) == RecordEnd(buffer)
    ensures NextRecord(buffer[..NextRecord(buffer)]) == NextRecord(buffer)
  {
    EndIsLocal(buffer, buffer[..NextRecord(buffer)]);
  }

  /** Where the first record ends depends only on the bytes up to its newline. */
  lemma EndIsLocal(buffer: Bytes, other: Bytes)
    requires RecordEnd(buffer) < |buffer| && RecordEnd(buffer) < |other|
    requires buffer[..RecordEnd(buffer) + 1] == other[..RecordEnd(buffer) + 1]
    ensures RecordEnd(other) == RecordEnd(buffer)
  {
    var n := RecordEnd(buffer);
    EndsRecord(buffer);
    assert forall i :: 0 <= i <= n ==> other[i] == other[..n + 1][i] == buffer[..n + 1][i] == buffer[i];
    OnlyRecordEnd(other, n);
  }

  /** What was consumed of `a` ends with a newline, or nothing was consumed, or nothing is added, or what is
      added starts with a newline. A record that broke off in the middle was not consumed. */
  predicate CleanCut<M>(reader: Reader<M>, a: Bytes, b: Bytes) {
    var consumed := Parse(reader, a).consumed;
    || consumed == 0
    || (consumed <= |a| && a[consumed - 1] == NEWLINE)
    || b == []
    || b[0] == NEWLINE
  }

  predicate Agree<M(==)>(first: Parsed<M>, second: Parsed<M>, whole: Parsed<M>) {
    && whole.messages == first.messages + second.messages
    && whole.consumed == first.consumed + second.consumed
    && whole.partial == second.partial
  }

  /** What is left of `a + b` where the reading of `a` stopped. */
  function Unread<M>(reader: Reader<M>, a: Bytes, b: Bytes): Bytes {
    var consumed := Parse(reader, a).consumed;
    if consumed <= |a| then a[consumed..] + b else b
  }

  /** Reading `a`, then resuming in `a + b` where that reading stopped, is the same as reading it at once. */
  predicate Resumes<M(==)>(reader: Reader<M>, a: Bytes, b: Bytes) {
    Agree(Parse(reader, a), Parse(reader, Unread(reader, a, b)), Parse(reader, a + b))
  }

  lemma RecordOfJoin(a: Bytes, b: Bytes)
    requires a != []
    ensures RecordEnd(a) < |a| ==>
              RecordEnd(a + b) == RecordEnd(a) && NextRecord(a + b) == NextRecord(a)
              && (a + b)[NextRecord(a)..] == a[NextRecord(a)..] + b
    ensures RecordEnd(a) == |a| && b != [] && b[0] == NEWLINE ==> RecordEnd(a + b) == |a|
  {
    if RecordEnd(a) < |a| {
      var n := RecordEnd(a);
      assert (a + b)[..n + 1] == a[..n + 1];
      EndIsLocal(a, a + b);
    } else if b != [] && b[0] == NEWLINE {
      EndsRecord(a);
      assert forall i :: 0 <= i < |a| ==> (a + b)[i] == a[i];
      OnlyRecordEnd(a + b, |a|);
    }
  }

  /** Resuming works after every clean cut, whatever the reader. */
  lemma {:induction false} TwoInstalments<M>(reader: Reader<M>, a: Bytes, b: Bytes)
    requires Lawful(reader) && CleanCut(reader, a, b)
    ensures Resumes(reader, a, b)
    decreases |a|
  {
    if a == [] {
      assert a[0..] + b == b && a + b == b;
    } else if RecordEnd(a) < |a| {
      CleanAfterFirst(reader, a, b);
      TwoInstalments(reader, a[NextRecord(a)..], b);
      ResumesWithoutFirst(reader, a, b);
    } else if Read(reader, a).malformed {
      assert a[..|a|] == a && a[0..] == a;
    } else if b == [] {
      UnterminatedRecord(reader, a);
      NothingToResume(reader, a, b);
    } else {
      EndsRecord(a);
      UnterminatedRecord(reader, a);
      LastRecordResumes(reader, a, b);
    }
  }

  /** Both readings start with the same complete record. */
  lemma SameFirstRecord<M>(reader: Reader<M>, a: Bytes, b: Bytes)
    requires RecordEnd(a) < |a|
    ensures var reading := Read(reader, a[..RecordEnd(a)]);
            var next := NextRecord(a);
            && Parse(reader, a) == After(reading.messages, next, reading.malformed, Parse(reader, a[next..]))
            && Parse(reader, a + b) == After(reading.messages, next, reading.malformed, Parse(reader, a[next..] + b))
  {
    RecordOfJoin(a, b);
    assert (a + b)[..RecordEnd(a)] == a[..RecordEnd(a)];
  }

  lemma SameUnread<M>(reader: Reader<M>, a: Bytes, b: Bytes)
    requires RecordEnd(a) < |a|
    ensures Unread(reader, a, b) == Unread(reader, a[NextRecord(a)..], b)
  {
    SameFirstRecord(reader, a, b);
    ConsumesAllUnlessPartial(reader, a[NextRecord(a)..]);
    var c := Parse(reader, a[NextRecord(a)..]).consumed;
    assert a[NextRecord(a) + c..] == a[NextRecord(a)..][c..];
  }

  lemma AgreeAfterExactly<M>(messages: seq<M>, consumed: nat, invalid: bool, first: Parsed<M>, second: Parsed<M>,
                             whole: Parsed<M>)
    ensures Agree(After(messages, consumed, invalid, first), second, After(messages, consumed, invalid, whole))
            <==> Agree(first, second, whole)
  {
    SamePrefix(messages, whole.messages, first.messages + second.messages);
    assert messages + (first.messages + second.messages) == messages + first.messages + second.messages;
  }

  lemma SamePrefix<M>(prefix: seq<M>, a: seq<M>, b: seq<M>)
    ensures prefix + a == prefix + b <==> a == b
  {
    if prefix + a == prefix + b {
      assert (prefix + a)[|prefix|..] == a && (prefix + b)[|prefix|..] == b;
    }
  }

  /** Resuming agrees for `a` exactly when it agrees for what follows its first record. */
  lemma ResumesWithoutFirst<M>(reader: Reader<M>, a: Bytes, b: Bytes)
    requires RecordEnd(a) < |a|
    ensures Resumes(reader, a, b) <==> Resumes(reader, a[NextRecord(a)..], b)
  {
    var reading, rest := Read(reader, FirstRecord(a)), a[NextRecord(a)..];
    SameFirstRecord(reader, a, b);
    SameUnread(reader, a, b);
    AgreeAfterExactly(reading.messages, NextRecord(a), reading.malformed, Parse(reader, rest),
                      Parse(reader, Unread(reader, rest, b)), Parse(reader, rest + b));
  }

  /** Whether a cut is clean shows after the first record. */
  lemma CleanAfterFirst<M>(reader: Reader<M>, a: Bytes, b: Bytes)
    requires RecordEnd(a) < |a|
    ensures CleanCut(reader, a, b) <==> CleanCut(reader, a[NextRecord(a)..], b)
  {
    var rest := a[NextRecord(a)..];
    SameFirstRecord(reader, a, b);
    ConsumesAllUnlessPartial(reader, rest);
    EndsRecord(a);
    var consumed := Parse(reader, rest).consumed;
    assert Parse(reader, a).consumed == NextRecord(a) + consumed;
    assert a[NextRecord(a) - 1] == NEWLINE;
    assert consumed > 0 ==> rest[consumed - 1] == a[NextRecord(a) + consumed - 1];
  }

  lemma UnterminatedRecord<M>(reader: Reader<M>, a: Bytes)
    requires a != [] && RecordEnd(a) == |a| && !Read(reader, a).malformed
    ensures Parse(reader, a) == Parsed(Read(reader, a).messages, |a|, false, false)
  {
    assert a[..|a|] == a && a[|a|..] == [];
  }

  lemma NewlineEndsRecord(a: Bytes, b: Bytes)
    requires a != [] && RecordEnd(a) == |a| && b != [] && b[0] == NEWLINE
    ensures RecordEnd(a + b) == |a| && NextRecord(a + b) == |a| + 1
    ensures (a + b)[..|a|] == a && (a + b)[|a| + 1..] == b[1..]
  {
    RecordOfJoin(a, b);
  }

  lemma TerminatedRecord<M>(reader: Reader<M>, a: Bytes, b: Bytes)
    requires a != [] && RecordEnd(a) == |a| && b != [] && b[0] == NEWLINE && !Read(reader, a).malformed
    ensures Parse(reader, a + b) == After(Read(reader, a).messages, |a| + 1, false, Parse(reader, b[1..]))
  {
    NewlineEndsRecord(a, b);
    ParseRecord(reader, a + b, a, b[1..]);
  }

  /** A record that stops no reading, then the rest. */
  lemma ParseRecord<M>(reader: Reader<M>, buffer: Bytes, text: Bytes, rest: Bytes)
    requires buffer != [] && buffer[..RecordEnd(buffer)] == text && buffer[NextRecord(buffer)..] == rest
    requires !Read(reader, text).malformed
    ensures Parse(reader, buffer) == After(Read(reader, text).messages, NextRecord(buffer), false, Parse(reader, rest))
  {
  }

  /** A leading newline ends an empty record. */
  lemma LeadingNewline<M>(reader: Reader<M>, b: Bytes)
    requires Lawful(reader) && b != [] && b[0] == NEWLINE
    ensures Parse(reader, b) == After([], 1, false, Parse(reader, b[1..]))
  {
    assert b[..0] == [];
  }

  lemma LastRecordResumes<M>(reader: Reader<M>, a: Bytes, b: Bytes)
    requires Lawful(reader) && b != [] && b[0] == NEWLINE
    requires a != [] && RecordEnd(a) == |a| && !Read(reader, a).malformed
    ensures Resumes(reader, a, b)
  {
    UnterminatedRecord(reader, a);
    UnreadIsRest(reader, a, b);
    TerminatedRecord(reader, a, b);
    LeadingNewline(reader, b);
    AgreeLast(Read(reader, a).messages, |a|, Parse(reader, b[1..]));
  }

  lemma AgreeLast<M>(messages: seq<M>, consumed: nat, rest: Parsed<M>)
    ensures Agree(Parsed(messages, consumed, false, false), After([], 1, false, rest),
                  After(messages, consumed + 1, false, rest))
  {
    assert [] + rest.messages == rest.messages;
  }

  lemma UnreadIsRest<M>(reader: Reader<M>, a: Bytes, b: Bytes)
    requires Parse(reader, a).consumed == |a|
    ensures Unread(reader, a, b) == b
  {
    assert a[|a|..] + b == b;
  }

  lemma NothingToResume<M>(reader: Reader<M>, a: Bytes, b: Bytes)
    requires b == [] && !Parse(reader, a).partial
    ensures Resumes(reader, a, b)
  {
    ConsumesAllUnlessPartial(reader, a);
    UnreadIsRest(reader, a, b);
    assert a + b == a;
  }

  // ---- The exact condition ----

  /** What follows the last newline. */
  function LastRecord(a: Bytes): Bytes
    decreases |a|
  {
    if RecordEnd(a) == |a| then a else LastRecord(a[NextRecord(a)..])
  }

  function FirstRecord(b: Bytes): Bytes {
    b[..RecordEnd(b)]
  }

  /** The unterminated record `t` of the first instalment and the first record of the second, `h`, read as one record
      what they read as two; and if nothing ends `h`, it stops neither reading. */
  predicate Joins<M(==)>(reader: Reader<M>, t: Bytes, b: Bytes) {
    var h := FirstRecord(b);
    && Read(reader, t + h).messages == Read(reader, t).messages + Read(reader, h).messages
    && (RecordEnd(b) == |b| ==> !Read(reader, t + h).malformed && !Read(reader, h).malformed)
  }

  /** A cut that is not clean leaves a last record that was read without its end. */
  lemma {:induction false} UncleanTail<M>(reader: Reader<M>, a: Bytes, b: Bytes)
    requires !CleanCut(reader, a, b)
    ensures LastRecord(a) != [] && !Read(reader, LastRecord(a)).malformed
    ensures Parse(reader, a).consumed == |a|
    decreases |a|
  {
    ConsumesAllUnlessPartial(reader, a);
    if RecordEnd(a) < |a| {
      CleanAfterFirst(reader, a, b);
      UncleanTail(reader, a[NextRecord(a)..], b);
      SameFirstRecord(reader, a, b);
    } else {
      assert a[..|a|] == a;
    }
  }

  lemma SameSuffix<M>(a: seq<M>, b: seq<M>, suffix: seq<M>)
    ensures a + suffix == b + suffix <==> a == b
  {
    if a + suffix == b + suffix {
      assert |a| == |b|;
      assert (a + suffix)[..|a|] == a && (b + suffix)[..|b|] == b;
    }
  }

  /** Where the first record of the join ends. */
  lemma JoinedRecord(t: Bytes, b: Bytes)
    requires t != [] && RecordEnd(t) == |t|
    ensures RecordEnd(t + b) == |t| + RecordEnd(b) && FirstRecord(t + b) == t + FirstRecord(b)
    ensures NextRecord(t + b) == |t| + NextRecord(b) && (t + b)[NextRecord(t + b)..] == b[NextRecord(b)..]
  {
    EndsRecord(t);
    EndsRecord(b);
    assert forall i :: 0 <= i < |t| ==> (t + b)[i] == t[i];
    assert forall i :: |t| <= i < |t| + |b| ==> (t + b)[i] == b[i - |t|];
    OnlyRecordEnd(t + b, |t| + RecordEnd(b));
  }

  /** An unterminated record, resumed. */
  lemma JoinResumes<M>(reader: Reader<M>, t: Bytes, b: Bytes)
    requires t != [] && RecordEnd(t) == |t| && !Read(reader, t).malformed && b != []
    ensures Resumes(reader, t, b) <==> Joins(reader, t, b)
  {
    UnterminatedRecord(reader, t);
    UnreadIsRest(reader, t, b);
    JoinedRecord(t, b);
    if RecordEnd(b) < |b| {
      JoinAgrees(Read(reader, t).messages, |t|, Read(reader, FirstRecord(b)), Read(reader, t + FirstRecord(b)),
                 NextRecord(b), Parse(reader, b[NextRecord(b)..]));
    } else {
      assert FirstRecord(b) == b;
      UnendedRecord(reader, b);
      UnendedRecord(reader, t + b);
    }
  }

  lemma JoinAgrees<M>(messages: seq<M>, length: nat, apart: Reading<M>, joined: Reading<M>, next: nat, rest: Parsed<M>)
    ensures Agree(Parsed(messages, length, false, false), After(apart.messages, next, apart.malformed, rest),
                  After(joined.messages, length + next, joined.malformed, rest))
            <==> joined.messages == messages + apart.messages
  {
    SameSuffix(joined.messages, messages + apart.messages, rest.messages);
    assert messages + (apart.messages + rest.messages) == messages + apart.messages + rest.messages;
  }

  lemma UnendedRecord<M>(reader: Reader<M>, b: Bytes)
    requires b != [] && RecordEnd(b) == |b|
    ensures Parse(reader, b) == if Read(reader, b).malformed then Parsed([], 0, true, true)
                                else Parsed(Read(reader, b).messages, |b|, false, false)
  {
    assert b[..|b|] == b;
    if !Read(reader, b).malformed {
      UnterminatedRecord(reader, b);
    }
  }

  lemma {:induction false} UncleanExactly<M>(reader: Reader<M>, a: Bytes, b: Bytes)
    requires !CleanCut(reader, a, b)
    ensures Resumes(reader, a, b) <==> Joins(reader, LastRecord(a), b)
    decreases |a|
  {
    UncleanTail(reader, a, b);
    if RecordEnd(a) < |a| {
      CleanAfterFirst(reader, a, b);
      UncleanExactly(reader, a[NextRecord(a)..], b);
      ResumesWithoutFirst(reader, a, b);
    } else {
      JoinResumes(reader, a, b);
    }
  }

  /** For every reader: resuming in `a + b` agrees with reading it at once if and only if the cut is clean, or the two
      halves of the record that it cuts read as one record what they read as two. */
  predicate CutAgrees<M(==)>(reader: Reader<M>, a: Bytes, b: Bytes) {
    CleanCut(reader, a, b) || Joins(reader, LastRecord(a), b)
  }

  lemma ResumesExactly<M>(reader: Reader<M>, a: Bytes, b: Bytes)
    requires Lawful(reader)
    ensures Resumes(reader, a, b) <==> CutAgrees(reader, a, b)
  {
    if CleanCut(reader, a, b) {
      TwoInstalments(reader, a, b);
    } else {
      UncleanExactly(reader, a, b);
    }
  }

  /** So a reader that takes every non-blank record, and gives each one message, agrees at clean cuts only, unless
      one of the halves is blank. */
  lemma CleanCutExactly<M>(reader: Reader<M>, a: Bytes, b: Bytes)
    requires Lawful(reader) && forall text: Bytes :: !reader.blank(text) ==> reader.json(text).Some?
    requires !reader.blank(LastRecord(a)) && !reader.blank(FirstRecord(b))
    ensures Resumes(reader, a, b) <==> CleanCut(reader, a, b)
  {
    ResumesExactly(reader, a, b);
  }

  // ---- Many instalments ----

  function Joined(segments: seq<Bytes>): Bytes {
    if segments == [] then [] else Joined(segments[..|segments| - 1]) + segments[|segments| - 1]
  }

  /** The messages of each segment read on its own, in order. */
  function ReadApart<M>(reader: Reader<M>, segments: seq<Bytes>): seq<M> {
    if segments == [] then []
    else
      ReadApart(reader, segments[..|segments| - 1]) + Parse(reader, segments[|segments| - 1]).messages
  }

  /** Every instalment resumes where the ones before it stopped. */
  predicate AllAgree<M(==)>(reader: Reader<M>, segments: seq<Bytes>) {
    forall k :: 0 <= k < |segments| ==> CutAgrees(reader, Joined(segments[..k]), segments[k])
  }

  lemma OneMoreInstalment<M>(reader: Reader<M>, a: Bytes, b: Bytes, messages: seq<M>)
    requires Lawful(reader) && CutAgrees(reader, a, b)
    requires !Parse(reader, a).partial && Parse(reader, a).messages == messages
    ensures Parse(reader, a + b).messages == messages + Parse(reader, b).messages
    ensures Parse(reader, a + b).partial == Parse(reader, b).partial
  {
    ResumesExactly(reader, a, b);
    ConsumesAllUnlessPartial(reader, a);
    UnreadIsRest(reader, a, b);
  }

  predicate AllWhole<M>(reader: Reader<M>, segments: seq<Bytes>) {
    forall k :: 0 <= k < |segments| ==> !Parse(reader, segments[k]).partial
  }

  lemma AllButLast<M>(reader: Reader<M>, segments: seq<Bytes>)
    requires segments != [] && AllAgree(reader, segments) && AllWhole(reader, segments)
    ensures var init := segments[..|segments| - 1];
            && AllAgree(reader, init) && AllWhole(reader, init)
            && CutAgrees(reader, Joined(init), segments[|segments| - 1])
            && !Parse(reader, segments[|segments| - 1]).partial
  {
    var init := segments[..|segments| - 1];
    forall k | 0 <= k < |init| ensures CutAgrees(reader, Joined(init[..k]), init[k]) {
      assert init[..k] == segments[..k];
    }
  }

  /** Segments that resume each other, each read to its end, hold the messages of their concatenation. */
  lemma {:induction false} ManyInstalments<M>(reader: Reader<M>, segments: seq<Bytes>)
    requires Lawful(reader) && AllAgree(reader, segments) && AllWhole(reader, segments)
    ensures Parse(reader, Joined(segments)).messages == ReadApart(reader, segments)
    ensures !Parse(reader, Joined(segments)).partial
    decreases |segments|
  {
    if segments != [] {
      var init, last := segments[..|segments| - 1], segments[|segments| - 1];
      AllButLast(reader, segments);
      ManyInstalments(reader, init);
      OneMoreInstalment(reader, Joined(init), last, ReadApart(reader, init));
    }
  }
}
