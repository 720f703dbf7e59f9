/**
 * The Kafka jobs of the older service (`src/kafka/Kafka.kt`). `testKafkaRead` archives the
 * henvendelse records above the stored offset, batch by batch, and moves the stored offset;
 * `kafkaSample` collects the fnr of the first five records. The consumer library that polls
 * the batches and reacts to the returned state is not part of this model: each method here is
 * the callback for one batch, and the class fields are the variables the callback captures.
 */
module Kafka {
  import opened Wrappers
  import opened Tables
  import opened Models
  import opened KotlinCollections
  import opened ArkivDb
  import opened LegacyDb

  /** What a batch callback tells the consumer: go on, stop, or stop with an error. */
  datatype ConsumerState = IsOk | IsFinished | HasIssues

  /** One polled record: the JSON text and its offset. */
  datatype KafkaRecord = KafkaRecord(value: string, offset: int)

  /** The records of a batch above the stored offset, in batch order. */
  function Above(cRecords: seq<KafkaRecord>, lastOffset: int): seq<KafkaRecord>
    decreases |cRecords|
  {
    if cRecords == [] then []
    else
      var last := cRecords[|cRecords| - 1];
      Above(cRecords[..|cRecords| - 1], lastOffset) + (if last.offset > lastOffset then [last] else [])
  }

  /** The records that parse, as payloads with their offsets, in order. */
  function Unprocessed(records: seq<KafkaRecord>, parse: string -> Option<ArkivModel>): seq<(ArkivModel, int)>
    decreases |records|
  {
    if records == [] then []
    else
      var last := records[|records| - 1];
      var parsed := parse(last.value);
      Unprocessed(records[..|records| - 1], parse) + (if parsed.Some? then [(parsed.value, last.offset)] else [])
  }

  /** How many of the records do not parse. */
  function ParseFailures(records: seq<KafkaRecord>, parse: string -> Option<ArkivModel>): nat
    decreases |records|
  {
    if records == [] then 0
    else
      ParseFailures(records[..|records| - 1], parse) + (if parse(records[|records| - 1].value).None? then 1 else 0)
  }

  function Payloads(unprocessed: seq<(ArkivModel, int)>): (r: seq<ArkivModel>)
    ensures |r| == |unprocessed|
  {
    seq(|unprocessed|, i requires 0 <= i < |unprocessed| => unprocessed[i].0)
  }

  /** The records above the offset are exactly those of the batch whose offset is larger. */
  lemma {:induction false} AboveMembers(cRecords: seq<KafkaRecord>, lastOffset: int)
    ensures forall r :: r in Above(cRecords, lastOffset) <==> r in cRecords && r.offset > lastOffset
    decreases |cRecords|
  {
    if cRecords != [] {
      var front := cRecords[..|cRecords| - 1];
      AboveMembers(front, lastOffset);
      assert cRecords == front + [cRecords[|cRecords| - 1]];
    }
  }

  /** Every record either parses or counts as a failure. */
  lemma {:induction false} EveryRecordCounted(records: seq<KafkaRecord>, parse: string -> Option<ArkivModel>)
    ensures |Unprocessed(records, parse)| + ParseFailures(records, parse) == |records|
    decreases |records|
  {
    if records != [] {
      EveryRecordCounted(records[..|records| - 1], parse);
    }
  }

  /** Each unprocessed payload comes from a record of the list, with that record's offset. */
  lemma {:induction false} UnprocessedFromRecords(records: seq<KafkaRecord>, parse: string -> Option<ArkivModel>)
    ensures forall p :: p in Unprocessed(records, parse) ==>
      exists r :: r in records && p.1 == r.offset && parse(r.value) == Some(p.0)
    decreases |records|
  {
    if records != [] {
      var front := records[..|records| - 1];
      UnprocessedFromRecords(front, parse);
      forall p | p in Unprocessed(records, parse)
        ensures exists r :: r in records && p.1 == r.offset && parse(r.value) == Some(p.0)
      {
        if p in Unprocessed(front, parse) {
          var r :| r in front && p.1 == r.offset && parse(r.value) == Some(p.0);
          assert r in records;
        } else {
          assert records[|records| - 1] in records;
        }
      }
    }
  }

  /** The offset a productive batch moves to lies above the stored one. */
  lemma NewOffsetAdvances(cRecords: seq<KafkaRecord>, lastOffset: int, parse: string -> Option<ArkivModel>)
    requires Unprocessed(Above(cRecords, lastOffset), parse) != []
    ensures var u := Unprocessed(Above(cRecords, lastOffset), parse); u[|u| - 1].1 > lastOffset
  {
    var u := Unprocessed(Above(cRecords, lastOffset), parse);
    UnprocessedFromRecords(Above(cRecords, lastOffset), parse);
    AboveMembers(cRecords, lastOffset);
    assert u[|u| - 1] in u;
  }

  lemma AboveSnoc(records: seq<KafkaRecord>, r: KafkaRecord, lastOffset: int)
    ensures Above(records + [r], lastOffset) == Above(records, lastOffset) + (if r.offset > lastOffset then [r] else [])
  {
    assert (records + [r])[..|records|] == records;
  }

  lemma UnprocessedSnoc(records: seq<KafkaRecord>, r: KafkaRecord, parse: string -> Option<ArkivModel>)
    ensures var parsed := parse(r.value);
      && Unprocessed(records + [r], parse)
         == Unprocessed(records, parse) + (if parsed.Some? then [(parsed.value, r.offset)] else [])
      && ParseFailures(records + [r], parse) == ParseFailures(records, parse) + (if parsed.None? then 1 else 0)
  {
    assert (records + [r])[..|records|] == records;
  }

  /** What one more record does to the kept records, the parsed payloads and the failure count. */
  lemma InvestigateOne(cRecords: seq<KafkaRecord>, i: nat, offset: int, parse: string -> Option<ArkivModel>)
    requires i < |cRecords|
    ensures var before := Above(cRecords[..i], offset);
      var after := Above(cRecords[..i + 1], offset);
      var r := cRecords[i];
      var parsed := parse(r.value);
      if r.offset > offset then
        && |after| == |before| + 1
        && Unprocessed(after, parse)
           == Unprocessed(before, parse) + (if parsed.Some? then [(parsed.value, r.offset)] else [])
        && ParseFailures(after, parse) == ParseFailures(before, parse) + (if parsed.None? then 1 else 0)
      else
        after == before
  {
    assert cRecords[..i + 1] == cRecords[..i] + [cRecords[i]];
    AboveSnoc(cRecords[..i], cRecords[i], offset);
    UnprocessedSnoc(Above(cRecords[..i], offset), cRecords[i], parse);
  }

  /** `testKafkaRead`: the variables of the job and the store it writes. */
  class KafkaIngest {
    const db: LegacyDb
    var lastOffset: int
    var failedParsed: nat
    var investigated: nat
    var stored: nat

    ghost predicate Valid()
      reads this, db, db.arkivV3
    {
      db.Valid()
    }

    /** The job starts from the stored offset, with every count at zero. */
    constructor (db: LegacyDb)
      requires db.Valid()
      ensures Valid() && this.db == db
      ensures lastOffset == OffsetOf(db.offsets)
      ensures failedParsed == 0 && investigated == 0 && stored == 0
    {
      this.db := db;
      failedParsed := 0;
      investigated := 0;
      stored := 0;
      new;
      lastOffset := db.HenteOffset();
    }

    /**
     * The filter, map and filter of a batch: keep the records above the offset, counting each
     * as investigated, parse them, and count and drop those that do not parse.
     */
    method Investigate(cRecords: seq<KafkaRecord>, parse: string -> Option<ArkivModel>)
      returns (unprocessed: seq<(ArkivModel, int)>)
      modifies this
      ensures unprocessed == Unprocessed(Above(cRecords, lastOffset), parse)
      ensures investigated == old(investigated) + |Above(cRecords, lastOffset)|
      ensures failedParsed == old(failedParsed) + ParseFailures(Above(cRecords, lastOffset), parse)
      ensures lastOffset == old(lastOffset) && stored == old(stored)
    {
      var offset := lastOffset;
      var seen: nat, failed: nat := 0, 0;
      unprocessed := [];
      for i := 0 to |cRecords|
        modifies {}
        invariant seen == |Above(cRecords[..i], offset)|
        invariant failed == ParseFailures(Above(cRecords[..i], offset), parse)
        invariant unprocessed == Unprocessed(Above(cRecords[..i], offset), parse)
      {
        var record := cRecords[i];
        InvestigateOne(cRecords, i, offset, parse);
        if record.offset > offset {
          seen := seen + 1;
          var parsed := parse(record.value);
          if parsed.None? {
            failed := failed + 1;
          } else {
            unprocessed := unprocessed + [(parsed.value, record.offset)];
          }
        }
      }
      assert cRecords[..|cRecords|] == cRecords;
      investigated := investigated + seen;
      failedParsed := failedParsed + failed;
    }

    /**
     * The callback for one polled batch. An empty batch ends the job. Otherwise every record
     * above the offset is counted as investigated and parsed; a record that does not parse is
     * counted as failed, and as soon as any record of the job has failed, the batch stops
     * with an error and archives nothing. A batch with nothing new goes on without writing.
     * Otherwise the payloads are archived (see Archive).
     */
    method ConsumeBatch(cRecords: seq<KafkaRecord>, parse: string -> Option<ArkivModel>, f: Formats, clock: nat -> Instant)
      returns (r: Result<ConsumerState, Failure>)
      requires Valid()
      modifies this, db, db.arkivV3
      ensures Valid()
      ensures cRecords == [] ==>
        && r == Ok(IsFinished)
        && unchanged(this) && db.offsets == old(db.offsets) && db.arkivV3.rows == old(db.arkivV3.rows)
        && db.arkivV3.nextId == old(db.arkivV3.nextId)
      ensures cRecords != [] ==>
        var newer := Above(cRecords, old(lastOffset));
        && investigated == old(investigated) + |newer|
        && failedParsed == old(failedParsed) + ParseFailures(newer, parse)
      ensures var u := Unprocessed(Above(cRecords, old(lastOffset)), parse);
        cRecords != [] && (failedParsed > 0 || u == []) ==>
        && r == Ok(if failedParsed > 0 then HasIssues else IsOk)
        && lastOffset == old(lastOffset) && stored == old(stored)
        && db.offsets == old(db.offsets) && db.arkivV3.rows == old(db.arkivV3.rows)
        && db.arkivV3.nextId == old(db.arkivV3.nextId)
      ensures var u := Unprocessed(Above(cRecords, old(lastOffset)), parse);
        cRecords != [] && failedParsed == 0 && u != [] ==>
        ArchiveOutcome(u, f, clock, old(lastOffset), old(stored), old(db.offsets), old(db.arkivV3.rows),
          old(db.arkivV3.nextId), r, lastOffset, stored, db.offsets, db.arkivV3.rows, db.arkivV3.nextId)
      ensures var u := Unprocessed(Above(cRecords, old(lastOffset)), parse);
        cRecords != [] && failedParsed == 0 && u != []
          && Completes(f, SplitToFit(Payloads(u)), IdRoom(ArkivV3, old(db.arkivV3.nextId))) ==>
        lastOffset > old(lastOffset)
    {
      if cRecords == [] {
        return Ok(IsFinished);
      }
      var unprocessed := Investigate(cRecords, parse);
      if failedParsed > 0 {
        return Ok(HasIssues);
      }
      if unprocessed == [] {
        return Ok(IsOk);
      }
      NewOffsetAdvances(cRecords, lastOffset, parse);
      r := Archive(unprocessed, f, clock);
    }

    /**
     * The writing half of a productive batch: the payloads are archived, counted as stored,
     * and the offset moves to that of the last one and is saved. When a date does not parse or
     * the id sequence is used up, nothing is written or counted and the error ends the job.
     */
    method Archive(unprocessed: seq<(ArkivModel, int)>, f: Formats, clock: nat -> Instant)
      returns (r: Result<ConsumerState, Failure>)
      requires Valid() && unprocessed != []
      modifies this, db, db.arkivV3
      ensures Valid()
      ensures investigated == old(investigated) && failedParsed == old(failedParsed)
      ensures ArchiveOutcome(unprocessed, f, clock, old(lastOffset), old(stored), old(db.offsets),
        old(db.arkivV3.rows), old(db.arkivV3.nextId), r, lastOffset, stored, db.offsets, db.arkivV3.rows,
        db.arkivV3.nextId)
    {
      var archived := db.AddArchive(Payloads(unprocessed), f, clock);
      if archived.Err? {
        return Err(archived.error);
      }
      stored := stored + |unprocessed|;
      lastOffset := unprocessed[|unprocessed| - 1].1;
      var failure := db.StoreOffset(lastOffset);
      if failure.Some? {
        return Err(failure.value);
      }
      r := Ok(IsOk);
    }
  }

  /**
   * What archiving the parsed payloads `u` does, from the state before (offset0, stored0,
   * offsets0, rows0, nextId0) to the state after: with every date parsing, the rows are appended,
   * the count grows by |u|, the offset becomes that of the last payload and is saved (when the
   * storage has exactly one row) or violates the primary key (when it has more); otherwise (a
   * date that does not parse, or no id left in the sequence) the call fails and nothing
   * changes, except that the ids of the payloads inserted before the failure stay used.
   */
  ghost predicate ArchiveOutcome(
    u: seq<(ArkivModel, int)>, f: Formats, clock: nat -> Instant,
    offset0: int, stored0: nat, offsets0: map<string, int>, rows0: seq<Row>, nextId0: int,
    r: Result<ConsumerState, Failure>, offset: int, stored: nat, offsets: map<string, int>, rows: seq<Row>,
    nextId: int)
    requires u != []
  {
    var split, room := SplitToFit(Payloads(u)), IdRoom(ArkivV3, nextId0);
    if Completes(f, split, room) then
      && rows == rows0 + InsertedRows(split, nextId0, clock, f)
      && nextId == nextId0 + |split|
      && stored == stored0 + |u|
      && offset == u[|u| - 1].1
      && offsets == (if |offsets0| == 1 then map[OffsetKey := Decimal.ToInt32(offset)] else offsets0)
      && r == (if |offsets0| > 1 then Err(UniqueViolation) else Ok(IsOk))
    else
      && r == Err(StopFailure(f, split, room))
      && offset == offset0 && stored == stored0
      && offsets == offsets0 && rows == rows0
      && nextId == nextId0 + Stored(f, split, room)
  }

  /** The number of records `kafkaSample` looks at. */
  const SampleCount: nat := 5

  /** `it.first?.fnr` in a string template: the fnr, or "null" when the record did not parse. */
  function FnrText(parsed: Option<ArkivModel>): string {
    if parsed.Some? then parsed.value.fnr else "null"
  }

  /** The line `kafkaSample` appends for one record. */
  function SampleLine(parsed: Option<ArkivModel>): string {
    "fnr " + FnrText(parsed) + "\n"
  }

  /** The sample lines for some records, one "fnr <fnr>" line each, in order. */
  function SampleLines(records: seq<KafkaRecord>, parse: string -> Option<ArkivModel>): string
    decreases |records|
  {
    if records == [] then ""
    else SampleLines(records[..|records| - 1], parse) + SampleLine(parse(records[|records| - 1].value))
  }

  lemma SampleLinesSnoc(records: seq<KafkaRecord>, r: KafkaRecord, parse: string -> Option<ArkivModel>)
    ensures SampleLines(records + [r], parse) == SampleLines(records, parse) + SampleLine(parse(r.value))
  {
    assert (records + [r])[..|records|] == records;
  }

  lemma SampleOne(records: seq<KafkaRecord>, i: nat, parse: string -> Option<ArkivModel>)
    requires i < |records|
    ensures records[..i + 1] == records[..i] + [records[i]]
    ensures SampleLines(records[..i + 1], parse) == SampleLines(records[..i], parse) + SampleLine(parse(records[i].value))
  {
    assert records[..i + 1] == records[..i] + [records[i]];
    SampleLinesSnoc(records[..i], records[i], parse);
  }

  function Min(a: nat, b: nat): nat {
    if a < b then a else b
  }

  /**
   * The sampler after looking at the first i records of a batch, having wanted `wanted`
   * samples: it sampled the first Min(wanted, i) of them, and wants that many fewer.
   */
  ghost predicate SampledSoFar(records: seq<KafkaRecord>, parse: string -> Option<ArkivModel>, wanted: nat, i: nat,
    left: nat, picked0: seq<KafkaRecord>, picked: seq<KafkaRecord>, text0: string, text: string)
  {
    && i <= |records|
    && left == wanted - Min(wanted, i)
    && picked == picked0 + records[..Min(wanted, i)]
    && text == text0 + SampleLines(records[..Min(wanted, i)], parse)
  }

  /** Looking at one more record samples it exactly when samples are still wanted. */
  lemma SampleStep(records: seq<KafkaRecord>, parse: string -> Option<ArkivModel>, wanted: nat, i: nat,
    left: nat, picked0: seq<KafkaRecord>, picked: seq<KafkaRecord>, text0: string, text: string)
    requires i < |records| && SampledSoFar(records, parse, wanted, i, left, picked0, picked, text0, text)
    ensures left > 0 ==> SampledSoFar(records, parse, wanted, i + 1, left - 1, picked0, picked + [records[i]],
      text0, text + SampleLine(parse(records[i].value)))
    ensures left == 0 ==> SampledSoFar(records, parse, wanted, i + 1, left, picked0, picked, text0, text)
  {
    if left > 0 {
      assert Min(wanted, i) == i && Min(wanted, i + 1) == i + 1;
      SampleOne(records, i, parse);
      var line := SampleLine(parse(records[i].value));
      assert text + line == text0 + (SampleLines(records[..i], parse) + line);
      assert picked + [records[i]] == picked0 + (records[..i] + [records[i]]);
    } else {
      assert Min(wanted, i + 1) == Min(wanted, i);
    }
  }

  /** `kafkaSample`: the text collected so far and the samples still wanted. */
  class KafkaSampler {
    var result: string
    var samplesLeft: nat
    ghost var sampled: seq<KafkaRecord>

    /** The text holds one line for each record sampled, and at most five are sampled. */
    ghost predicate Valid()
      reads this
    {
      |sampled| + samplesLeft == SampleCount
    }

    constructor ()
      ensures Valid() && result == "" && samplesLeft == SampleCount && sampled == []
    {
      result := "";
      samplesLeft := SampleCount;
      sampled := [];
    }

    /**
     * The callback for one batch: an empty batch ends the job; otherwise a line is added for
     * each record while samples are still wanted, and the job goes on until none is.
     */
    method ConsumeBatch(cRecords: seq<KafkaRecord>, parse: string -> Option<ArkivModel>) returns (state: ConsumerState)
      requires Valid()
      modifies this
      ensures Valid()
      ensures cRecords == [] ==> state == IsFinished && unchanged(this)
      ensures cRecords != [] ==>
        var n := Min(old(samplesLeft), |cRecords|);
        && sampled == old(sampled) + cRecords[..n]
        && result == old(result) + SampleLines(cRecords[..n], parse)
        && samplesLeft == old(samplesLeft) - n
        && state == (if samplesLeft > 0 then IsOk else IsFinished)
    {
      if cRecords == [] {
        return IsFinished;
      }
      Sample(cRecords, parse);
      state := if samplesLeft > 0 then IsOk else IsFinished;
    }

    /** The `forEach` of the callback: one line per record while samples are still wanted. */
    method Sample(cRecords: seq<KafkaRecord>, parse: string -> Option<ArkivModel>)
      modifies this
      ensures var n := Min(old(samplesLeft), |cRecords|);
        && sampled == old(sampled) + cRecords[..n]
        && result == old(result) + SampleLines(cRecords[..n], parse)
        && samplesLeft == old(samplesLeft) - n
    {
      var text, left := result, samplesLeft;
      ghost var picked := sampled;
      ghost var text0, wanted, picked0 := text, left, picked;
      for i := 0 to |cRecords|
        invariant SampledSoFar(cRecords, parse, wanted, i, left, picked0, picked, text0, text)
      {
        SampleStep(cRecords, parse, wanted, i, left, picked0, picked, text0, text);
        if left > 0 {
          text := text + SampleLine(parse(cRecords[i].value));
          left := left - 1;
          picked := picked + [cRecords[i]];
        }
      }
      result, samplesLeft, sampled := text, left, picked;
    }
  }
}
