/** When an indexing drafts a commit, when it does nothing and when it is refused, in terms of the file's records. */
module IndexDrafts {
  import opened Basics
  import opened Jsonl
  import opened JsonlRecords
  import opened Chunker
  import opened TranscriptIndex

  predicate KeptAt<M>(lib: Imports<M>, raw: seq<M>, i: nat) {
    i < |raw| && lib.precompute(raw[i]).Some?
  }

  /** `at` are the positions of the kept lines, and `msgs` what they become. */
  ghost predicate KeptFrom<M>(lib: Imports<M>, raw: seq<M>, msgs: seq<Message>, at: seq<nat>) {
    && Picks(at, |raw|, (i: nat) => KeptAt(lib, raw, i)) && |msgs| == |at|
    && forall j :: 0 <= j < |at| ==> at[j] < |raw| && lib.precompute(raw[at[j]]) == Some(msgs[j])
  }

  lemma KeptMore<M>(lib: Imports<M>, raw: seq<M>, next: M, msgs: seq<Message>, at: seq<nat>)
    requires KeptFrom(lib, raw, msgs, at)
    ensures if lib.precompute(next).Some? then
              KeptFrom(lib, raw + [next], msgs + [lib.precompute(next).value], at + [|raw|])
            else KeptFrom(lib, raw + [next], msgs, at)
  {
    var more := raw + [next];
    assert forall i: nat :: i < |raw| ==> KeptAt(lib, more, i) == KeptAt(lib, raw, i);
    assert more[|raw|] == next;
  }

  /** The kept messages are exactly one per line that is a user or assistant message, in order. */
  lemma {:induction false} PrecomputedByPosition<M>(lib: Imports<M>, raw: seq<M>) returns (at: seq<nat>)
    ensures KeptFrom(lib, raw, Precomputed(lib, raw), at)
  {
    at := [];
    if raw != [] {
      var n := |raw| - 1;
      at := PrecomputedByPosition(lib, raw[..n]);
      KeptMore(lib, raw[..n], raw[n], Precomputed(lib, raw[..n]), at);
      assert raw == raw[..n] + [raw[n]];
      if lib.precompute(raw[n]).Some? {
        at := at + [n];
      }
    }
  }

  predicate SomeValid<M>(reader: Reader<M>, all: seq<Bytes>) {
    exists k :: 0 <= k < |all| && Valid(reader, all[k])
  }

  lemma MessagesIffValid<M>(reader: Reader<M>, all: seq<Bytes>, messages: seq<M>)
    requires Gives(reader, all, messages)
    ensures messages != [] <==> SomeValid(reader, all)
  {
    var at :| GivesAt(reader, all, messages, at);
    if messages != [] {
      assert at[0] in at && ValidAt(reader, all, at[0]);
    }
    if k :| 0 <= k < |all| && Valid(reader, all[k]) {
      assert ValidAt(reader, all, k);
      assert k in at;
    }
  }

  /** What the drafting asks of a reading. */
  lemma ReadingExactly<M>(lib: Imports<M>, unread: Bytes, records: seq<Bytes>, last: Bytes)
    requires IsWritten(unread, records, last)
    ensures var all, broken := Records(records, last), last != [] && Malformed(lib.reader, last);
            var p := Parse(lib.reader, unread);
            && (p.messages == [] <==> !SomeValid(lib.reader, all))
            && (p.invalid <==> SomeMalformed(lib.reader, all)) && (p.partial <==> broken)
            && (broken ==> SomeMalformed(lib.reader, all))
            && p.consumed == (if broken then |Terminated(records)| else |unread|) <= |unread|
  {
    var all := Records(records, last);
    ParseDescribes(lib.reader, unread, records, last);
    MessagesIffValid(lib.reader, all, Parse(lib.reader, unread).messages);
    if last != [] && Malformed(lib.reader, last) {
      assert all[|records|] == last;
    }
  }

  /** A forced indexing is refused if and only if some record of the file is malformed; otherwise it drafts a
      replacement by the whole file, with its chunks if some record is valid. */
  lemma ForcedExactly<M>(lib: Imports<M>, expected: Option<Record>, file: Bytes, rows: Rows, records: seq<Bytes>,
                         last: Bytes)
    requires IsWritten(file, records, last)
    ensures var d := Prepare(lib, expected, file, rows, true);
            && (d.ForceRefused? <==> SomeMalformed(lib.reader, Records(records, last)))
            && (!d.ForceRefused? ==>
                  && d.Draft? && d.replace && d.expected == expected && d.offset == |file|
                  && d.hash == lib.sha256(file)
                  && (d.empty <==> !SomeValid(lib.reader, Records(records, last))))
  {
    assert file[0..] == file && file[..|file|] == file;
    ReadingExactly(lib, file, records, last);
  }

  /** What is drafted from a reading that starts at `from`. */
  lemma DraftOfExactly<M>(lib: Imports<M>, expected: Option<Record>, file: Bytes, keys: set<nat>, replaced: bool,
                          from: nat, p: Parsed<M>)
    requires from + p.consumed <= |file| && (p.consumed == |file| - from <==> !p.partial)
    ensures var d := DraftOf(lib, expected, file, keys, replaced, from, p);
            && (d.Nothing? <==> p.messages == [] && (p.partial || (!replaced && p.invalid)))
            && (d.Nothing? || d.Draft?)
            && (d.Draft? ==>
                  && d.replace == replaced && d.expected == expected && (d.empty <==> p.messages == [])
                  && d.offset == from + p.consumed && d.hash == lib.sha256(file[..d.offset]))
  {
  }

  /** An indexing that is not forced reads on from the record's offset, or from the start if the file was replaced. It
      does nothing if and only if there are no new bytes, or no valid record among the new ones and either the last one
      broke off or some are malformed and the file was not replaced. Otherwise it drafts a commit up to the end, or up
      to the last newline if the last record broke off. */
  lemma UnforcedExactly<M>(lib: Imports<M>, expected: Option<Record>, file: Bytes, rows: Rows, records: seq<Bytes>,
                           last: Bytes)
    requires var from := if Replaced(lib, expected, file) then 0 else OffsetOf(expected);
             from <= |file| && IsWritten(file[from..], records, last)
    ensures var replaced := Replaced(lib, expected, file);
            var from := if replaced then 0 else OffsetOf(expected);
            var all, broken := Records(records, last), last != [] && Malformed(lib.reader, last);
            var d := Prepare(lib, expected, file, rows, false);
            && (d.Nothing? <==>
                  || (expected.Some? && !replaced && |file| == from)
                  || (!SomeValid(lib.reader, all) && (broken || (!replaced && SomeMalformed(lib.reader, all)))))
            && (d.Nothing? || d.Draft?)
            && (d.Draft? ==>
                  && d.replace == replaced && d.expected == expected
                  && (d.empty <==> !SomeValid(lib.reader, all))
                  && d.offset == (if broken then from + |Terminated(records)| else |file|)
                  && d.offset <= |file| && d.hash == lib.sha256(file[..d.offset]))
  {
    var replaced := Replaced(lib, expected, file);
    var from := if replaced then 0 else OffsetOf(expected);
    var p := Parse(lib.reader, file[from..]);
    ReadingExactly(lib, file[from..], records, last);
    ConsumesAllUnlessPartial(lib.reader, file[from..]);
    DraftOfExactly(lib, expected, file, if replaced then {} else rows.Keys, replaced, from, p);
  }

  /** When the hash tells the two prefixes apart, an indexing treats the file as replaced if and only if the bytes that
      the record stands for are no longer how the file begins. */
  lemma ReplacementExactly<M>(lib: Imports<M>, record: Record, indexed: Bytes, file: Bytes)
    requires record.offset == |indexed| && record.hash == lib.sha256(indexed)
    requires |indexed| <= |file| && lib.sha256(file[..|indexed|]) == lib.sha256(indexed) ==>
               file[..|indexed|] == indexed
    ensures Replaced(lib, Some(record), file) <==> !(indexed <= file)
  {
    if indexed <= file {
      assert file[..|indexed|] == indexed;
    }
  }
}
