/** What a buffer of JSONL records gives, record by record and without the reading itself. */
module JsonlRecords {
  import opened Basics
  import opened Jsonl

  predicate NewlineFree(record: Bytes) {
    forall i :: 0 <= i < |record| ==> record[i] != NEWLINE
  }

  /** Records, each with its newline. */
  function Terminated(records: seq<Bytes>): Bytes {
    if records == [] then [] else records[0] + [NEWLINE] + Terminated(records[1..])
  }

  /** A buffer as it is written: terminated records and what follows the last newline. */
  predicate IsWritten(buffer: Bytes, records: seq<Bytes>, last: Bytes) {
    && (forall k :: 0 <= k < |records| ==> NewlineFree(records[k]))
    && NewlineFree(last)
    && buffer == Terminated(records) + last
  }

  /** Every buffer is of this form. */
  lemma {:induction false} EveryBufferIsWritten(buffer: Bytes) returns (records: seq<Bytes>, last: Bytes)
    ensures IsWritten(buffer, records, last)
    decreases |buffer|
  {
    EndsRecord(buffer);
    if RecordEnd(buffer) == |buffer| {
      records, last := [], buffer;
      assert buffer == Terminated(records) + last;
    } else {
      var record, rest := buffer[..RecordEnd(buffer)], buffer[NextRecord(buffer)..];
      records, last := EveryBufferIsWritten(rest);
      assert ([record] + records)[1..] == records;
      assert buffer == record + [NEWLINE] + rest;
      assert Terminated([record] + records) + last == record + [NEWLINE] + (Terminated(records) + last);
      records := [record] + records;
    }
  }

  /** The records of such a buffer; nothing behind the last newline is none. */
  function Records(records: seq<Bytes>, last: Bytes): seq<Bytes> {
    if last == [] then records else records + [last]
  }

  /** A record that JSON.parse takes. */
  predicate Valid<M>(reader: Reader<M>, record: Bytes) {
    !reader.blank(record) && reader.json(record).Some?
  }

  /** A record that it does not take. */
  predicate Malformed<M>(reader: Reader<M>, record: Bytes) {
    !reader.blank(record) && reader.json(record).None?
  }

  predicate ValidAt<M>(reader: Reader<M>, all: seq<Bytes>, i: nat) {
    i < |all| && Valid(reader, all[i])
  }

  /** `messages` are exactly one value per valid record, in order. */
  ghost predicate Gives<M>(reader: Reader<M>, all: seq<Bytes>, messages: seq<M>) {
    exists at: seq<nat> :: GivesAt(reader, all, messages, at)
  }

  ghost predicate GivesAt<M>(reader: Reader<M>, all: seq<Bytes>, messages: seq<M>, at: seq<nat>) {
    && Picks(at, |all|, (i: nat) => ValidAt(reader, all, i))
    && |messages| == |at|
    && forall j :: 0 <= j < |at| ==> at[j] < |all| && reader.json(all[at[j]]) == Some(messages[j])
  }

  predicate SomeMalformed<M>(reader: Reader<M>, all: seq<Bytes>) {
    exists k :: 0 <= k < |all| && Malformed(reader, all[k])
  }

  /** What a written buffer must give: one message per valid record, in order; invalid if and only if some record is
      malformed; partial if and only if that is the unterminated last one; and consumed up to its end, or up to the last
      newline if it is partial. */
  ghost predicate Describes<M>(reader: Reader<M>, records: seq<Bytes>, last: Bytes, p: Parsed<M>) {
    var all := Records(records, last);
    && Gives(reader, all, p.messages)
    && (p.invalid <==> SomeMalformed(reader, all))
    && (p.partial <==> last != [] && Malformed(reader, last))
    && p.consumed == |Terminated(records)| + if p.partial then 0 else |last|
  }

  lemma FirstRecordOfTerminated(record: Bytes, rest: Bytes)
    requires NewlineFree(record)
    ensures var buffer := record + [NEWLINE] + rest;
            && RecordEnd(buffer) == |record| && buffer[..RecordEnd(buffer)] == record
            && NextRecord(buffer) == |record| + 1 && buffer[NextRecord(buffer)..] == rest
  {
    OnlyRecordEnd(record + [NEWLINE] + rest, |record|);
  }

  lemma ParseTerminated<M>(reader: Reader<M>, record: Bytes, rest: Bytes)
    requires NewlineFree(record)
    ensures var p, tail := Parse(reader, record + [NEWLINE] + rest), Parse(reader, rest);
            && p.messages == (if Valid(reader, record) then [reader.json(record).value] else []) + tail.messages
            && p.consumed == |record| + 1 + tail.consumed
            && (p.invalid <==> Malformed(reader, record) || tail.invalid)
            && p.partial == tail.partial
  {
    FirstRecordOfTerminated(record, rest);
    var buffer := record + [NEWLINE] + rest;
    assert buffer != [] && RecordEnd(buffer) < |buffer|;
  }

  lemma ParseLast<M>(reader: Reader<M>, last: Bytes)
    requires NewlineFree(last)
    ensures var p := Parse(reader, last);
            && p.messages == (if last != [] && Valid(reader, last) then [reader.json(last).value] else [])
            && p.consumed == (if last != [] && Malformed(reader, last) then 0 else |last|)
            && (p.invalid <==> last != [] && Malformed(reader, last))
            && (p.partial <==> last != [] && Malformed(reader, last))
  {
    if last != [] {
      OnlyRecordEnd(last, |last|);
      UnendedRecord(reader, last);
    }
  }

  function Value<M>(reader: Reader<M>, record: Bytes): seq<M> {
    if Valid(reader, record) then [reader.json(record).value] else []
  }

  /** Putting a record in front moves every position up by one. */
  lemma GivesMore<M>(reader: Reader<M>, record: Bytes, all: seq<Bytes>, messages: seq<M>)
    requires Gives(reader, all, messages)
    ensures Gives(reader, [record] + all, Value(reader, record) + messages)
  {
    var at :| GivesAt(reader, all, messages, at);
    var more := [record] + all;
    assert forall i: nat :: i < |all| ==> more[i + 1] == all[i];
    PicksMore(at, |all|, (i: nat) => ValidAt(reader, all, i), (i: nat) => ValidAt(reader, more, i));
    var first: seq<nat> := if ValidAt(reader, more, 0) then [0] else [];
    GivesMoreAt(reader, record, all, messages, at, first + MovedUp(at));
  }

  lemma GivesMoreAt<M>(reader: Reader<M>, record: Bytes, all: seq<Bytes>, messages: seq<M>, at: seq<nat>,
                       more: seq<nat>)
    requires GivesAt(reader, all, messages, at)
    requires more == (if Valid(reader, record) then [0] else []) + MovedUp(at)
    requires Picks(more, |all| + 1, (i: nat) => ValidAt(reader, [record] + all, i))
    ensures GivesAt(reader, [record] + all, Value(reader, record) + messages, more)
  {
    var k := if Valid(reader, record) then 1 else 0;
    forall j | 0 <= j < |more|
      ensures more[j] < |all| + 1
      ensures reader.json(([record] + all)[more[j]]) == Some((Value(reader, record) + messages)[j])
    {
      if j >= k {
        assert more[j] == at[j - k] + 1;
      }
    }
  }

  lemma GivesNone<M>(reader: Reader<M>)
    ensures Gives(reader, [], [])
  {
    assert GivesAt(reader, [], [], []);
  }

  lemma GivesOne<M>(reader: Reader<M>, last: Bytes)
    ensures Gives(reader, [last], Value(reader, last))
  {
    GivesNone(reader);
    GivesMore(reader, last, [], []);
    assert [last] + [] == [last] && Value(reader, last) + [] == Value(reader, last);
  }

  lemma MalformedMore<M>(reader: Reader<M>, record: Bytes, all: seq<Bytes>)
    ensures SomeMalformed(reader, [record] + all) <==> Malformed(reader, record) || SomeMalformed(reader, all)
  {
    var more := [record] + all;
    if k :| 0 <= k < |all| && Malformed(reader, all[k]) {
      assert Malformed(reader, more[k + 1]);
    }
    assert more[0] == record;
    if k :| 0 <= k < |more| && Malformed(reader, more[k]) {
      assert k > 0 ==> more[k] == all[k - 1];
    }
  }

  lemma DescribesLast<M>(reader: Reader<M>, last: Bytes)
    requires NewlineFree(last)
    ensures Describes(reader, [], last, Parse(reader, last))
  {
    ParseLast(reader, last);
    if last == [] {
      GivesNone(reader);
    } else {
      GivesOne(reader, last);
      assert [] + [last] == [last] && [last][0] == last;
    }
  }

  lemma DescribesMore<M>(reader: Reader<M>, record: Bytes, records: seq<Bytes>, last: Bytes, rest: Parsed<M>,
                         p: Parsed<M>)
    requires Describes(reader, records, last, rest)
    requires p == Parsed(Value(reader, record) + rest.messages, |record| + 1 + rest.consumed,
                         Malformed(reader, record) || rest.invalid, rest.partial)
    ensures Describes(reader, [record] + records, last, p)
  {
    GivesMore(reader, record, Records(records, last), rest.messages);
    MalformedMore(reader, record, Records(records, last));
    assert Records([record] + records, last) == [record] + Records(records, last);
    assert ([record] + records)[1..] == records;
  }

  /** For every buffer, as it is written: the reading gives what it must. */
  lemma {:induction false} ParseDescribes<M>(reader: Reader<M>, buffer: Bytes, records: seq<Bytes>, last: Bytes)
    requires IsWritten(buffer, records, last)
    ensures Describes(reader, records, last, Parse(reader, buffer))
    decreases |records|
  {
    if records == [] {
      assert buffer == last;
      DescribesLast(reader, last);
    } else {
      var rest := Terminated(records[1..]) + last;
      assert buffer == records[0] + [NEWLINE] + rest;
      ParseDescribes(reader, rest, records[1..], last);
      ParseTerminated(reader, records[0], rest);
      DescribesMore(reader, records[0], records[1..], last, Parse(reader, rest), Parse(reader, buffer));
      assert records == [records[0]] + records[1..];
    }
  }
}
