/**
 * The archive writer and reader of the current service (`DB.addArchive`,
 * `DB.henteArchiveV4`, `andWhere`, `summarize`).
 *
 * Writing: each payload whose text does not fit the `dokumentasjon` column is split into
 * consecutive chunks, every other field copied; each resulting payload is inserted as a new
 * row (the id comes from the table), and one response per row is built, with the text
 * summarised and, for a confidential payload, the identifying fields replaced by markers.
 *
 * Reading: a query starts from every row and is narrowed by one equality condition per
 * non-empty filter field, plus `konfidentiellt = false`; the answer carries the full text and
 * is sorted by id.
 */
module ArkivDb {
  import opened Wrappers
  import opened Decimal
  import opened Tables
  import opened Models
  import opened KotlinCollections
  import opened KotlinText

  // ---------------------------------------------------------------- summary

  const CutOff: nat := 30
  const KonfidentielltSummary: KString := Utf16("konfidentiellt")
  const Hidden: string := "-hidden-"

  /** The note that replaces the rest of a long text: "... (30 of N characters)". */
  function LengthNote(n: nat): string {
    "... (" + NatToDecimal(CutOff) + " of " + NatToDecimal(n) + " characters)"
  }

  /**
   * A text of at most 30 code units is shown whole; a longer one by its first 30 units and a
   * note giving its length in units (Kotlin's `length`).
   */
  function Summarize(dokumentasjon: KString): (r: KString)
    ensures |dokumentasjon| <= CutOff ==> r == dokumentasjon
    ensures |dokumentasjon| > CutOff ==> CutOff < |r| && r[..CutOff] == dokumentasjon[..CutOff]
  {
    if |dokumentasjon| > CutOff then dokumentasjon[..CutOff] + Utf16(LengthNote(|dokumentasjon|))
    else dokumentasjon
  }

  lemma MiddleOf<T>(a: seq<T>, m: seq<T>, b: seq<T>)
    ensures (a + m + b)[|a|..|a + m + b| - |b|] == m
  {
  }

  /**
   * Two long texts with the same summary have the same length and the same first 30
   * characters: the summary loses only the characters after the 30th.
   */
  lemma SummaryDeterminesLength(s: KString, t: KString)
    requires |s| > CutOff && |t| > CutOff && Summarize(s) == Summarize(t)
    ensures |s| == |t| && s[..CutOff] == t[..CutOff]
  {
    var head := "... (" + NatToDecimal(CutOff) + " of ";
    var tail := " characters)";
    var ds, dt := NatToDecimal(|s|), NatToDecimal(|t|);
    NoteUnits(head, ds, tail);
    NoteUnits(head, dt, tail);
    assert LengthNote(|s|) == head + ds + tail;
    assert LengthNote(|t|) == head + dt + tail;
    assert Summarize(s)[CutOff..] == Utf16(LengthNote(|s|));
    assert Summarize(t)[CutOff..] == Utf16(LengthNote(|t|));
    MiddleOf(Utf16(head), Utf16(ds), Utf16(tail));
    MiddleOf(Utf16(head), Utf16(dt), Utf16(tail));
    Utf16Injective(ds, dt);
    NatToDecimalInjective(|s|, |t|);
  }

  lemma NoteUnits(a: string, m: string, b: string)
    ensures Utf16(a + m + b) == Utf16(a) + Utf16(m) + Utf16(b)
  {
    Utf16Append(a + m, b);
    Utf16Append(a, m);
  }

  // ---------------------------------------------------------------- splitting

  /** The payloads one request item becomes: itself when its text fits, else one per chunk. */
  function SplitPayload(m: ArkivModel): seq<ArkivModel> {
    if |m.dokumentasjon| < DokumentasjonLength then [m]
    else
      var chunks := Chunked(m.dokumentasjon, DokumentasjonLength);
      seq(|chunks|, i requires 0 <= i < |chunks| => m.(dokumentasjon := chunks[i]))
  }

  /** `modelSplitToFit`: the request items split in request order, chunks in text order. */
  function SplitToFit(requestBody: seq<ArkivModel>): seq<ArkivModel>
    decreases |requestBody|
  {
    if requestBody == [] then [] else SplitPayload(requestBody[0]) + SplitToFit(requestBody[1..])
  }

  function Texts(ms: seq<ArkivModel>): (r: seq<KString>)
    ensures |r| == |ms| && forall i :: 0 <= i < |ms| ==> r[i] == ms[i].dokumentasjon
  {
    seq(|ms|, i requires 0 <= i < |ms| => ms[i].dokumentasjon)
  }

  /** How many rows a text of n characters takes: one below the width, else n / width rounded up. */
  function RowCount(n: nat): nat {
    if n < DokumentasjonLength then 1 else (n + DokumentasjonLength - 1) / DokumentasjonLength
  }

  function TotalRows(requestBody: seq<ArkivModel>): nat
    decreases |requestBody|
  {
    if requestBody == [] then 0
    else RowCount(|requestBody[0].dokumentasjon|) + TotalRows(requestBody[1..])
  }

  /** A payload whose text fits the column is kept as it is, as the only row. */
  lemma SplitPayloadKeepsShort(m: ArkivModel)
    requires |m.dokumentasjon| <= DokumentasjonLength
    ensures SplitPayload(m) == [m]
  {
    if |m.dokumentasjon| == DokumentasjonLength {
      ChunkedWhole(m.dokumentasjon, DokumentasjonLength);
      assert m.(dokumentasjon := m.dokumentasjon) == m;
    }
  }

  /**
   * A payload becomes RowCount(|text|) rows; each keeps every other field, no text is longer
   * than the column, all but the last text of a split are exactly as long as the column, and
   * the texts concatenate back to the original.
   */
  lemma SplitPayloadProperties(m: ArkivModel)
    ensures var r := SplitPayload(m);
      && |r| == RowCount(|m.dokumentasjon|)
      && (forall k :: 0 <= k < |r| ==> r[k].(dokumentasjon := m.dokumentasjon) == m)
      && (forall k :: 0 <= k < |r| ==> |r[k].dokumentasjon| <= DokumentasjonLength)
      && (forall k :: 0 <= k < |r| - 1 ==> |r[k].dokumentasjon| == DokumentasjonLength)
      && Concat(Texts(r)) == m.dokumentasjon
  {
    var r := SplitPayload(m);
    if |m.dokumentasjon| < DokumentasjonLength {
      assert Concat(Texts(r)) == m.dokumentasjon + Concat([]);
    } else {
      var chunks := Chunked(m.dokumentasjon, DokumentasjonLength);
      ChunkedCount(m.dokumentasjon, DokumentasjonLength);
      ChunkedSizes(m.dokumentasjon, DokumentasjonLength);
      ChunkedConcat(m.dokumentasjon, DokumentasjonLength);
      assert Texts(r) == chunks;
      assert |chunks| >= 2 ==> |r| - 1 == |chunks| - 1;
    }
  }

  lemma {:induction false} ConcatAppend<T>(a: seq<seq<T>>, b: seq<seq<T>>)
    ensures Concat(a + b) == Concat(a) + Concat(b)
    decreases |a|
  {
    if a == [] {
      assert a + b == b;
    } else {
      ConcatAppend(a[1..], b);
      assert (a + b)[0] == a[0] && (a + b)[1..] == a[1..] + b;
      calc {
        Concat(a + b);
        a[0] + Concat(a[1..] + b);
        a[0] + (Concat(a[1..]) + Concat(b));
        (a[0] + Concat(a[1..])) + Concat(b);
      }
    }
  }

  /** Splitting respects request order: a request split in two parts splits part by part. */
  lemma {:induction false} SplitToFitAppend(a: seq<ArkivModel>, b: seq<ArkivModel>)
    ensures SplitToFit(a + b) == SplitToFit(a) + SplitToFit(b)
    decreases |a|
  {
    if a == [] {
      assert a + b == b;
    } else {
      var head := SplitPayload(a[0]);
      SplitToFitAppend(a[1..], b);
      assert (a + b)[0] == a[0] && (a + b)[1..] == a[1..] + b;
      SplitToFitUnfold(a + b);
      SplitToFitUnfold(a);
      assert SplitToFit(a + b) == head + (SplitToFit(a[1..]) + SplitToFit(b));
      assert SplitToFit(a) == head + SplitToFit(a[1..]);
      AppendAssociative(head, SplitToFit(a[1..]), SplitToFit(b));
    }
  }

  lemma SplitToFitUnfold(requestBody: seq<ArkivModel>)
    requires requestBody != []
    ensures SplitToFit(requestBody) == SplitPayload(requestBody[0]) + SplitToFit(requestBody[1..])
  {
  }

  lemma AppendAssociative(x: seq<ArkivModel>, y: seq<ArkivModel>, z: seq<ArkivModel>)
    ensures x + (y + z) == (x + y) + z
  {
  }

  /** The split request has TotalRows rows, at least one per request item. */
  lemma {:induction false} SplitToFitLength(requestBody: seq<ArkivModel>)
    ensures |SplitToFit(requestBody)| == TotalRows(requestBody) >= |requestBody|
    decreases |requestBody|
  {
    if requestBody != [] {
      SplitPayloadProperties(requestBody[0]);
      SplitToFitLength(requestBody[1..]);
    }
  }

  /** Every text of the split request fits the column. */
  lemma {:induction false} SplitToFitFits(requestBody: seq<ArkivModel>)
    ensures forall k :: 0 <= k < |SplitToFit(requestBody)| ==>
      |SplitToFit(requestBody)[k].dokumentasjon| <= DokumentasjonLength
    decreases |requestBody|
  {
    if requestBody != [] {
      var head, rest := SplitPayload(requestBody[0]), SplitToFit(requestBody[1..]);
      SplitPayloadProperties(requestBody[0]);
      SplitToFitFits(requestBody[1..]);
      var split := head + rest;
      assert SplitToFit(requestBody) == split;
      forall k | 0 <= k < |split| ensures |split[k].dokumentasjon| <= DokumentasjonLength {
        if k < |head| {
          assert split[k] == head[k];
          assert |head[k].dokumentasjon| <= DokumentasjonLength;
        } else {
          assert split[k] == rest[k - |head|];
          assert |rest[k - |head|].dokumentasjon| <= DokumentasjonLength;
        }
      }
    }
  }

  /** A payload is one of the request's items with, at most, its text changed. */
  predicate FromItem(m: ArkivModel, requestBody: seq<ArkivModel>) {
    exists i :: 0 <= i < |requestBody| && m.(dokumentasjon := requestBody[i].dokumentasjon) == requestBody[i]
  }

  /** Every row of the split request is a request item with only its text changed. */
  lemma {:induction false} SplitToFitOrigin(requestBody: seq<ArkivModel>)
    ensures forall k :: 0 <= k < |SplitToFit(requestBody)| ==> FromItem(SplitToFit(requestBody)[k], requestBody)
    decreases |requestBody|
  {
    if requestBody != [] {
      var head, rest := SplitPayload(requestBody[0]), SplitToFit(requestBody[1..]);
      SplitPayloadProperties(requestBody[0]);
      SplitToFitOrigin(requestBody[1..]);
      var split := head + rest;
      assert SplitToFit(requestBody) == split;
      forall k | 0 <= k < |split| ensures FromItem(split[k], requestBody) {
        if k < |head| {
          assert split[k] == head[k];
          assert split[k].(dokumentasjon := requestBody[0].dokumentasjon) == requestBody[0];
        } else {
          assert split[k] == rest[k - |head|];
          assert FromItem(rest[k - |head|], requestBody[1..]);
          var i :| 0 <= i < |requestBody[1..]| &&
            rest[k - |head|].(dokumentasjon := requestBody[1..][i].dokumentasjon) == requestBody[1..][i];
          assert requestBody[1..][i] == requestBody[i + 1];
        }
      }
    }
  }

  /**
   * Lengths are Kotlin's, in code units: a text of n characters outside the Basic Multilingual
   * Plane is 2n long, so it is split once 2n reaches the column width and summarised once 2n
   * exceeds 30, with 2n in the note.
   */
  lemma SupplementaryCountTwice(m: ArkivModel, s: string)
    requires m.dokumentasjon == Utf16(s)
    requires forall i :: 0 <= i < |s| ==> IsSupplementary(s[i])
    ensures |m.dokumentasjon| == 2 * |s|
    ensures |SplitPayload(m)| == RowCount(2 * |s|)
    ensures 2 * |s| > DokumentasjonLength ==> |SplitPayload(m)| >= 2
    ensures 2 * |s| > CutOff ==> Summarize(m.dokumentasjon) == m.dokumentasjon[..CutOff] + Utf16(LengthNote(2 * |s|))
  {
    AllSupplementaryDouble(s);
    SplitPayloadProperties(m);
  }

  /** Some payload of `split` is the item `m` with only its text changed. */
  predicate HasPayloadOf(split: seq<ArkivModel>, m: ArkivModel) {
    exists k :: 0 <= k < |split| && split[k].(dokumentasjon := m.dokumentasjon) == m
  }

  /** No request item is lost: each one has at least one payload in the split request. */
  lemma {:induction false} SplitToFitKeepsItems(requestBody: seq<ArkivModel>)
    ensures forall i :: 0 <= i < |requestBody| ==> HasPayloadOf(SplitToFit(requestBody), requestBody[i])
    decreases |requestBody|
  {
    if requestBody != [] {
      var head, rest := SplitPayload(requestBody[0]), SplitToFit(requestBody[1..]);
      SplitPayloadProperties(requestBody[0]);
      SplitToFitKeepsItems(requestBody[1..]);
      var split := head + rest;
      assert SplitToFit(requestBody) == split;
      assert |head| >= 1;
      forall i | 0 <= i < |requestBody| ensures HasPayloadOf(split, requestBody[i]) {
        if i == 0 {
          assert split[0] == head[0];
        } else {
          assert requestBody[i] == requestBody[1..][i - 1];
          var k :| 0 <= k < |rest| && rest[k].(dokumentasjon := requestBody[i].dokumentasjon) == requestBody[i];
          assert split[|head| + k] == rest[k];
        }
      }
    }
  }

  lemma TextsAppend(a: seq<ArkivModel>, b: seq<ArkivModel>)
    ensures Texts(a + b) == Texts(a) + Texts(b)
  {
  }

  /** The texts of a request concatenate to its first text followed by those of the rest. */
  lemma ConcatTextsCons(requestBody: seq<ArkivModel>)
    requires requestBody != []
    ensures Concat(Texts(requestBody)) == requestBody[0].dokumentasjon + Concat(Texts(requestBody[1..]))
  {
    assert Texts(requestBody)[1..] == Texts(requestBody[1..]);
  }

  /** The texts of the split request concatenate to those of the request. */
  lemma {:induction false} SplitToFitTexts(requestBody: seq<ArkivModel>)
    ensures Concat(Texts(SplitToFit(requestBody))) == Concat(Texts(requestBody))
    decreases |requestBody|
  {
    if requestBody != [] {
      var head, rest := SplitPayload(requestBody[0]), SplitToFit(requestBody[1..]);
      SplitPayloadProperties(requestBody[0]);
      SplitToFitTexts(requestBody[1..]);
      assert SplitToFit(requestBody) == head + rest;
      TextsAppend(head, rest);
      ConcatAppend(Texts(head), Texts(rest));
      ConcatTextsCons(requestBody);
    }
  }

  /**
   * The split request has TotalRows rows, all within the column, each a copy of some request
   * item with only its text changed, and the texts concatenate to those of the request.
   */
  lemma SplitToFitProperties(requestBody: seq<ArkivModel>)
    ensures var split := SplitToFit(requestBody);
      && |split| == TotalRows(requestBody) && |split| >= |requestBody|
      && (forall k :: 0 <= k < |split| ==> |split[k].dokumentasjon| <= DokumentasjonLength)
      && (forall k :: 0 <= k < |split| ==> FromItem(split[k], requestBody))
      && Concat(Texts(split)) == Concat(Texts(requestBody))
  {
    SplitToFitLength(requestBody);
    SplitToFitFits(requestBody);
    SplitToFitOrigin(requestBody);
    SplitToFitTexts(requestBody);
  }

  /** The first `forEach` of `addArchive`: build `modelSplitToFit` item by item, chunk by chunk. */
  method SplitRequest(requestBody: seq<ArkivModel>) returns (split: seq<ArkivModel>)
    ensures split == SplitToFit(requestBody)
    ensures forall k :: 0 <= k < |split| ==> |split[k].dokumentasjon| <= DokumentasjonLength
  {
    split := [];
    for i := 0 to |requestBody|
      invariant split == SplitToFit(requestBody[..i])
    {
      var arkivModel := requestBody[i];
      if |arkivModel.dokumentasjon| < DokumentasjonLength {
        split := split + [arkivModel];
      } else {
        split := AppendChunks(split, arkivModel);
      }
      SplitToFitSnoc(requestBody, i);
    }
    assert requestBody[..|requestBody|] == requestBody;
    SplitToFitFits(requestBody);
  }

  /** The inner `forEach` over the chunks of a long text: one payload per chunk, in order. */
  method AppendChunks(split: seq<ArkivModel>, arkivModel: ArkivModel) returns (r: seq<ArkivModel>)
    requires |arkivModel.dokumentasjon| >= DokumentasjonLength
    ensures r == split + SplitPayload(arkivModel)
  {
    r := split;
    var chunks := Chunked(arkivModel.dokumentasjon, DokumentasjonLength);
    for j := 0 to |chunks|
      invariant r == split + SplitPayload(arkivModel)[..j]
    {
      r := r + [arkivModel.(dokumentasjon := chunks[j])];
    }
  }

  /** Splitting one more item appends that item's payloads. */
  lemma SplitToFitSnoc(requestBody: seq<ArkivModel>, i: nat)
    requires i < |requestBody|
    ensures SplitToFit(requestBody[..i + 1]) == SplitToFit(requestBody[..i]) + SplitPayload(requestBody[i])
  {
    assert requestBody[..i + 1] == requestBody[..i] + [requestBody[i]];
    SplitToFitAppend(requestBody[..i], [requestBody[i]]);
    assert SplitToFit([requestBody[i]]) == SplitPayload(requestBody[i]) + SplitToFit([]);
  }

  // ---------------------------------------------------------------- rows and responses

  /** The row inserted for a payload; `day` is its parsed document date, `now` the clock. */
  function RowOf(m: ArkivModel, id: int, now: Instant, day: Instant): Row {
    Row(id, now, m.opprettetAv, m.kilde, m.dokumentasjonId, m.dokumentasjon, day,
        m.aktoerid, m.fnr, m.orgnr, m.tema, m.konfidentiellt)
  }

  /**
   * The response built right after an insert. Every value it shows is one just stored: the
   * id the table assigned, the insert time, the payload's fields and its parsed date, so it is
   * written here as a function of the stored row.
   */
  function ResponseFor(row: Row, f: Formats): ArkivResponse {
    var konf := row.konfidentiellt;
    ArkivResponse(
      row.id, f.printStamp(row.dato), row.opprettetAv, row.kilde, row.dokumentasjonId,
      if konf then KonfidentielltSummary else Summarize(row.dokumentasjon),
      f.printDay(row.dokumentdato),
      if konf then Hidden else row.aktoerid,
      if konf then Hidden else row.fnr,
      if konf then Hidden else row.orgnr,
      if konf then Hidden else row.tema,
      konf)
  }

  /**
   * What a response may reveal about the row it answers for: the id, the insert time, the
   * author, source and document id, the date and the flag always; the identifying fields and
   * a summary of the text only when the row is not confidential.
   */
  predicate Describes(resp: ArkivResponse, row: Row, f: Formats) {
    && resp.id == row.id
    && resp.dato == f.printStamp(row.dato)
    && resp.opprettetAv == row.opprettetAv
    && resp.kilde == row.kilde
    && resp.dokumentasjonId == row.dokumentasjonId
    && resp.dokumentdato == f.printDay(row.dokumentdato)
    && resp.konfidentiellt == row.konfidentiellt
    && (if row.konfidentiellt then
          && resp.dokumentasjonSummarized == KonfidentielltSummary
          && resp.aktoerid == Hidden && resp.fnr == Hidden
          && resp.orgnr == Hidden && resp.tema == Hidden
        else
          && resp.dokumentasjonSummarized == Summarize(row.dokumentasjon)
          && resp.aktoerid == row.aktoerid && resp.fnr == row.fnr
          && resp.orgnr == row.orgnr && resp.tema == row.tema)
  }

  /** Every document date of the split request parses (else the insert loop throws). */
  predicate DatesParse(f: Formats, split: seq<ArkivModel>) {
    forall k :: 0 <= k < |split| ==> f.parseDay(split[k].dokumentdato).Some?
  }

  /**
   * How many payloads, from the first, have a date that parses: the index of the first
   * payload whose `DateTime.parse` throws, or all of them.
   */
  function ParsedPrefix(f: Formats, split: seq<ArkivModel>): (n: nat)
    ensures n <= |split|
    ensures forall k :: 0 <= k < n ==> f.parseDay(split[k].dokumentdato).Some?
    ensures n < |split| ==> f.parseDay(split[n].dokumentdato).None?
    decreases |split|
  {
    if split == [] || f.parseDay(split[0].dokumentdato).None? then 0
    else
      var n := 1 + ParsedPrefix(f, split[1..]);
      assert forall k :: 1 <= k < n ==> split[k] == split[1..][k - 1];
      n
  }

  /** Every date parses exactly when the parsed prefix is the whole split request. */
  lemma ParsedPrefixAll(f: Formats, split: seq<ArkivModel>)
    ensures DatesParse(f, split) <==> ParsedPrefix(f, split) == |split|
  {
  }

  /** A first failure at k means a parsed prefix of k. */
  lemma ParsedPrefixAt(f: Formats, split: seq<ArkivModel>, k: nat)
    requires k < |split| && DatesParse(f, split[..k]) && f.parseDay(split[k].dokumentdato).None?
    ensures ParsedPrefix(f, split) == k
  {
  }

  /**
   * Whether the insert loop stores every payload: every date parses and the sequence, with
   * `room` ids left, has an id for each.
   */
  predicate Completes(f: Formats, split: seq<ArkivModel>, room: nat) {
    DatesParse(f, split) && |split| <= room
  }

  /**
   * How many payloads the loop inserts before it stops: it stops at the first date that does
   * not parse (the date is parsed before the id is drawn), or at the first payload for which
   * the sequence has no id left.
   */
  function Stored(f: Formats, split: seq<ArkivModel>, room: nat): (n: nat)
    ensures n <= |split| && n <= room
    ensures DatesParse(f, split[..n])
  {
    var p := ParsedPrefix(f, split);
    var n := if p <= room then p else room;
    assert forall k :: 0 <= k < n ==> split[..n][k] == split[k];
    n
  }

  /** Why an incomplete loop stops: a date that does not parse, or the end of the sequence. */
  function StopFailure(f: Formats, split: seq<ArkivModel>, room: nat): Failure {
    if ParsedPrefix(f, split) <= room then InvalidDateFormat else SequenceExhausted
  }

  /**
   * An incomplete loop stops at a payload of the request: on its date when that does not
   * parse, and otherwise because it is the first payload past the room left in the sequence.
   */
  lemma StopsAt(f: Formats, split: seq<ArkivModel>, room: nat)
    requires !Completes(f, split, room)
    ensures var n := Stored(f, split, room);
      && n < |split|
      && (StopFailure(f, split, room) == InvalidDateFormat <==> f.parseDay(split[n].dokumentdato).None?)
      && (StopFailure(f, split, room) == SequenceExhausted ==> n == room)
  {
    ParsedPrefixAll(f, split);
  }

  /** A loop that stops on the date of payload k, with room for it, has stored k payloads. */
  lemma StopsOnDate(f: Formats, split: seq<ArkivModel>, k: nat, room: nat)
    requires k < |split| && k <= room && DatesParse(f, split[..k]) && f.parseDay(split[k].dokumentdato).None?
    ensures !Completes(f, split, room)
    ensures Stored(f, split, room) == k && StopFailure(f, split, room) == InvalidDateFormat
  {
    ParsedPrefixAt(f, split, k);
  }

  /** A loop that finds no id for payload k, whose date parses, has stored k payloads. */
  lemma StopsOnSequence(f: Formats, split: seq<ArkivModel>, k: nat, room: nat)
    requires k < |split| && k == room && DatesParse(f, split[..k + 1])
    ensures !Completes(f, split, room)
    ensures Stored(f, split, room) == k && StopFailure(f, split, room) == SequenceExhausted
  {
    assert forall j :: 0 <= j <= k ==> split[..k + 1][j] == split[j];
  }

  /**
   * The rows a call appends, built as the insert loop builds them: one per payload, in order,
   * the k-th with id firstId + k and the k-th clock reading.
   */
  function InsertedRows(split: seq<ArkivModel>, firstId: int, clock: nat -> Instant, f: Formats): (r: seq<Row>)
    requires DatesParse(f, split)
    ensures |r| == |split|
    decreases |split|
  {
    if split == [] then []
    else
      var k := |split| - 1;
      InsertedRows(split[..k], firstId, clock, f)
        + [RowOf(split[k], firstId + k, clock(k), f.parseDay(split[k].dokumentdato).value)]
  }

  /** The responses for some rows, one per row and in the same order. */
  function ResponsesFor(rows: seq<Row>, f: Formats): (r: seq<ArkivResponse>)
    ensures |r| == |rows| && forall k :: 0 <= k < |rows| ==> r[k] == ResponseFor(rows[k], f)
  {
    seq(|rows|, k requires 0 <= k < |rows| => ResponseFor(rows[k], f))
  }

  /** The responses of a call: one per inserted row, in insertion order. */
  function Responses(split: seq<ArkivModel>, firstId: int, clock: nat -> Instant, f: Formats): seq<ArkivResponse>
    requires DatesParse(f, split)
  {
    ResponsesFor(InsertedRows(split, firstId, clock, f), f)
  }

  lemma ResponsesForSnoc(rows: seq<Row>, row: Row, f: Formats)
    ensures ResponsesFor(rows + [row], f) == ResponsesFor(rows, f) + [ResponseFor(row, f)]
  {
    assert forall k :: 0 <= k < |rows| ==> (rows + [row])[k] == rows[k];
  }

  /** The k-th inserted row is the k-th payload with id firstId + k and the k-th clock reading. */
  lemma {:induction false} InsertedRowsAt(split: seq<ArkivModel>, firstId: int, clock: nat -> Instant, f: Formats)
    requires DatesParse(f, split)
    ensures forall k :: 0 <= k < |split| ==>
      InsertedRows(split, firstId, clock, f)[k]
        == RowOf(split[k], firstId + k, clock(k), f.parseDay(split[k].dokumentdato).value)
    decreases |split|
  {
    if split != [] {
      var front := split[..|split| - 1];
      InsertedRowsAt(front, firstId, clock, f);
      forall k | 0 <= k < |split| - 1
        ensures InsertedRows(split, firstId, clock, f)[k] == InsertedRows(front, firstId, clock, f)[k]
      {
      }
    }
  }

  /** Inserting one more payload, whose date parses, adds its row at the end. */
  lemma InsertedOneMore(split: seq<ArkivModel>, k: nat, firstId: int, clock: nat -> Instant, f: Formats)
    requires k < |split| && DatesParse(f, split[..k]) && f.parseDay(split[k].dokumentdato).Some?
    ensures DatesParse(f, split[..k + 1])
    ensures InsertedRows(split[..k + 1], firstId, clock, f) == InsertedRows(split[..k], firstId, clock, f)
      + [RowOf(split[k], firstId + k, clock(k), f.parseDay(split[k].dokumentdato).value)]
  {
    assert split[..k + 1][..k] == split[..k];
  }

  /** Each response describes the row inserted at its position, with the same id. */
  lemma ResponsesDescribeRows(split: seq<ArkivModel>, firstId: int, clock: nat -> Instant, f: Formats)
    requires DatesParse(f, split)
    ensures var rows, resps := InsertedRows(split, firstId, clock, f), Responses(split, firstId, clock, f);
      forall k :: 0 <= k < |split| ==> Describes(resps[k], rows[k], f) && rows[k].id == firstId + k
  {
    InsertedRowsAt(split, firstId, clock, f);
  }

  /** The response to a confidential row does not depend on its text or identifying fields. */
  lemma RedactedResponseHidesSecrets(r1: Row, r2: Row, f: Formats)
    requires r1.konfidentiellt && r2.konfidentiellt
    requires r1.id == r2.id && r1.dato == r2.dato && r1.dokumentdato == r2.dokumentdato
    requires r1.opprettetAv == r2.opprettetAv && r1.kilde == r2.kilde
    requires r1.dokumentasjonId == r2.dokumentasjonId
    ensures ResponseFor(r1, f) == ResponseFor(r2, f)
  {
  }

  /** The request fields that go to width-limited columns are within their widths. */
  predicate Storable(m: ArkivModel) {
    && |m.opprettetAv| <= OpprettetAvWidth
    && |m.kilde| <= KildeWidth
    && |m.dokumentasjonId| <= DokumentasjonIdWidth
    && |m.aktoerid| <= AktoeridWidth
    && |m.fnr| <= FnrWidth
    && |m.orgnr| <= OrgnrWidth
    && |m.tema| <= TemaWidth
  }

  /**
   * Every row the writer inserts fits the `dokumentasjon` column, whatever the text length,
   * and fits every column when the request's other fields are within their widths.
   */
  lemma InsertedRowsFit(requestBody: seq<ArkivModel>, firstId: int, clock: nat -> Instant, f: Formats)
    requires DatesParse(f, SplitToFit(requestBody))
    ensures var rows := InsertedRows(SplitToFit(requestBody), firstId, clock, f);
      && (forall k :: 0 <= k < |rows| ==> |rows[k].dokumentasjon| <= DokumentasjonLength)
      && ((forall i :: 0 <= i < |requestBody| ==> Storable(requestBody[i])) ==>
            forall k :: 0 <= k < |rows| ==> FitsColumns(rows[k]))
  {
    var split := SplitToFit(requestBody);
    var rows := InsertedRows(split, firstId, clock, f);
    SplitToFitFits(requestBody);
    SplitToFitOrigin(requestBody);
    InsertedRowsAt(split, firstId, clock, f);
    forall k | 0 <= k < |rows|
      ensures |rows[k].dokumentasjon| <= DokumentasjonLength
      ensures (forall i :: 0 <= i < |requestBody| ==> Storable(requestBody[i])) ==> FitsColumns(rows[k])
    {
      assert rows[k].dokumentasjon == split[k].dokumentasjon;
      if forall i :: 0 <= i < |requestBody| ==> Storable(requestBody[i]) {
        assert FromItem(split[k], requestBody);
        var i :| 0 <= i < |requestBody| &&
          split[k].(dokumentasjon := requestBody[i].dokumentasjon) == requestBody[i];
        assert Storable(requestBody[i]);
      }
    }
  }

  /**
   * `addArchive`: split the request, then insert each payload and build its response, all in
   * one transaction. If a document date does not parse, DateTime.parse throws; if the id
   * sequence is used up, the insert throws. Either way the whole call fails and the
   * transaction rolls back: no row of the call stays (ids already drawn stay used).
   */
  method AddArchive(table: ArkivTable, requestBody: seq<ArkivModel>, f: Formats, clock: nat -> Instant)
    returns (r: Result<seq<ArkivResponse>, Failure>)
    requires table.Valid()
    modifies table
    ensures table.Valid()
    ensures old(table.nextId) <= table.nextId
    ensures var split, room := SplitToFit(requestBody), IdRoom(table.generation, old(table.nextId));
      if Completes(f, split, room) then
        && r == Ok(Responses(split, old(table.nextId), clock, f))
        && table.rows == old(table.rows) + InsertedRows(split, old(table.nextId), clock, f)
        && table.nextId == old(table.nextId) + |split|
      else
        && r == Err(StopFailure(f, split, room)) && table.rows == old(table.rows)
        && table.nextId == old(table.nextId) + Stored(f, split, room)
  {
    var split := SplitRequest(requestBody);
    r := InsertAll(table, split, f, clock);
  }

  /**
   * The inner `transaction` for one payload: insert its row, then build its response; or
   * nothing, when the sequence has no id left.
   */
  method InsertPayload(table: ArkivTable, payload: ArkivModel, now: Instant, day: Instant, f: Formats)
    returns (r: Option<(Row, ArkivResponse)>)
    requires table.Valid()
    modifies table
    ensures table.Valid()
    ensures var stored := RowOf(payload, old(table.nextId), now, day);
      old(table.nextId) <= IdMax(table.generation) ==>
        && r == Some((stored, ResponseFor(stored, f)))
        && table.nextId == old(table.nextId) + 1
        && table.rows == old(table.rows) + [stored]
    ensures old(table.nextId) > IdMax(table.generation) ==>
      r == None && table.rows == old(table.rows) && table.nextId == old(table.nextId)
  {
    var resultId := table.Insert(RowOf(payload, 0, now, day));
    if resultId.None? {
      return None;
    }
    var stored := RowOf(payload, resultId.value, now, day);
    assert RowOf(payload, 0, now, day).(id := resultId.value) == stored;
    r := Some((stored, ResponseFor(stored, f)));
  }

  /** The second `forEach` of `addArchive`: insert the split payloads in order, inside the transaction. */
  method InsertAll(table: ArkivTable, split: seq<ArkivModel>, f: Formats, clock: nat -> Instant)
    returns (r: Result<seq<ArkivResponse>, Failure>)
    requires table.Valid()
    modifies table
    ensures table.Valid()
    ensures old(table.nextId) <= table.nextId
    ensures var room := IdRoom(table.generation, old(table.nextId));
      if Completes(f, split, room) then
        && r == Ok(Responses(split, old(table.nextId), clock, f))
        && table.rows == old(table.rows) + InsertedRows(split, old(table.nextId), clock, f)
        && table.nextId == old(table.nextId) + |split|
      else
        && r == Err(StopFailure(f, split, room)) && table.rows == old(table.rows)
        && table.nextId == old(table.nextId) + Stored(f, split, room)
  {
    var snapshot := table.rows;
    ghost var firstId := table.nextId;
    ghost var room := IdRoom(table.generation, firstId);
    ghost var inserted: seq<Row> := [];
    var result: seq<ArkivResponse> := [];
    var k := 0;
    while k < |split|
      invariant 0 <= k <= |split|
      invariant table.Valid() && table.nextId == firstId + k && k <= room
      invariant table.rows == snapshot + inserted
      invariant DatesParse(f, split[..k])
      invariant inserted == InsertedRows(split[..k], firstId, clock, f)
      invariant result == ResponsesFor(inserted, f)
    {
      var payload := split[k];
      var now := clock(k);
      var day := f.parseDay(payload.dokumentdato);
      if day.None? {
        StopsOnDate(f, split, k, room);
        table.Rollback(snapshot);
        return Err(InvalidDateFormat);
      }
      var insertedOne := InsertPayload(table, payload, now, day.value, f);
      if insertedOne.None? {
        InsertedOneMore(split, k, firstId, clock, f);
        StopsOnSequence(f, split, k, room);
        table.Rollback(snapshot);
        return Err(SequenceExhausted);
      }
      var (stored, response) := insertedOne.value;
      result := result + [response];
      InsertedOneMore(split, k, firstId, clock, f);
      ResponsesForSnoc(inserted, stored, f);
      inserted := inserted + [stored];
      k := k + 1;
    }
    assert split[..k] == split;
    r := Ok(result);
  }

  // ---------------------------------------------------------------- reading

  /** One equality test of a WHERE clause. */
  datatype Condition =
    | IdIs(id: int)
    | AktoeridIs(aktoerid: string)
    | FnrIs(fnr: string)
    | OrgnrIs(orgnr: string)
    | TemaIs(tema: string)
    | KildeIs(kilde: string)
    | DokumentasjonIdIs(dokumentasjonId: string)
    | DokumentdatoIs(dokumentdato: Instant)
    | KonfidentielltIs(konfidentiellt: bool)

  predicate Holds(c: Condition, row: Row) {
    match c
    case IdIs(id) => row.id == id
    case AktoeridIs(a) => row.aktoerid == a
    case FnrIs(x) => row.fnr == x
    case OrgnrIs(x) => row.orgnr == x
    case TemaIs(x) => row.tema == x
    case KildeIs(x) => row.kilde == x
    case DokumentasjonIdIs(x) => row.dokumentasjonId == x
    case DokumentdatoIs(d) => row.dokumentdato == d
    case KonfidentielltIs(b) => row.konfidentiellt == b
  }

  /** A WHERE clause as the list of its conjuncts; no conjunct at all is `selectAll()`. */
  type Query = seq<Condition>

  predicate Selects(q: Query, row: Row) {
    forall i :: 0 <= i < |q| ==> Holds(q[i], row)
  }

  /** `andWhere`: the clause becomes the old one AND the new condition. */
  function AndWhere(q: Query, c: Condition): (r: Query)
    ensures forall row :: Selects(r, row) <==> Selects(q, row) && Holds(c, row)
  {
    SelectsAppend(q, c);
    q + [c]
  }

  lemma SelectsAppend(q: Query, c: Condition)
    ensures forall row :: Selects(q + [c], row) <==> Selects(q, row) && Holds(c, row)
  {
    forall row ensures Selects(q + [c], row) <==> Selects(q, row) && Holds(c, row) {
      assert (q + [c])[|q|] == c;
      assert forall i :: 0 <= i < |q| ==> (q + [c])[i] == q[i];
    }
  }

  /** Running the query: the rows it selects, in table order. */
  function Select(rows: seq<Row>, q: Query): seq<Row>
    decreases |rows|
  {
    if rows == [] then []
    else (if Selects(q, rows[0]) then [rows[0]] else []) + Select(rows[1..], q)
  }

  /**
   * The reference reading of a filter: a row is found when it is not confidential and every
   * non-empty filter field equals its column (the id read with the JVM's rules in [lo, hi],
   * the date through the yyyy-MM-dd parser).
   */
  predicate Matches(h: HenteModel, f: Formats, lo: int, hi: int, row: Row) {
    && !row.konfidentiellt
    && (h.id == "" || ParseInteger(h.id, lo, hi) == Some(row.id))
    && (h.aktoerid == "" || row.aktoerid == h.aktoerid)
    && (h.fnr == "" || row.fnr == h.fnr)
    && (h.orgnr == "" || row.orgnr == h.orgnr)
    && (h.tema == "" || row.tema == h.tema)
    && (h.kilde == "" || row.kilde == h.kilde)
    && (h.dokumentasjonId == "" || row.dokumentasjonId == h.dokumentasjonId)
    && (h.dokumentdato == "" || f.parseDay(h.dokumentdato) == Some(row.dokumentdato))
  }

  /** The k-th test the reader adds, in the order it adds them; a test for an empty field is true. */
  predicate Clause(h: HenteModel, f: Formats, lo: int, hi: int, row: Row, k: nat) {
    if k == 0 then h.id == "" || ParseInteger(h.id, lo, hi) == Some(row.id)
    else if k == 1 then h.aktoerid == "" || row.aktoerid == h.aktoerid
    else if k == 2 then h.fnr == "" || row.fnr == h.fnr
    else if k == 3 then h.orgnr == "" || row.orgnr == h.orgnr
    else if k == 4 then h.tema == "" || row.tema == h.tema
    else if k == 5 then h.kilde == "" || row.kilde == h.kilde
    else if k == 6 then h.dokumentasjonId == "" || row.dokumentasjonId == h.dokumentasjonId
    else if k == 7 then h.dokumentdato == "" || f.parseDay(h.dokumentdato) == Some(row.dokumentdato)
    else !row.konfidentiellt
  }

  /** The first n tests of the reader, all passed. */
  predicate Through(h: HenteModel, f: Formats, lo: int, hi: int, row: Row, n: nat)
    decreases n
  {
    n == 0 || (Through(h, f, lo, hi, row, n - 1) && Clause(h, f, lo, hi, row, n - 1))
  }

  lemma ThroughAllIsMatches(h: HenteModel, f: Formats, lo: int, hi: int)
    ensures forall row :: Through(h, f, lo, hi, row, 9) <==> Matches(h, f, lo, hi, row)
  {
  }

  /** The query selects exactly the rows that pass the first n tests of the reader. */
  ghost predicate ReadsThrough(q: Query, h: HenteModel, f: Formats, lo: int, hi: int, n: nat) {
    forall row :: Selects(q, row) <==> Through(h, f, lo, hi, row, n)
  }

  /** One step of BuildQuery: adding the test for field k, or nothing when it is empty. */
  lemma Narrow(before: Query, after: Query, h: HenteModel, f: Formats, lo: int, hi: int, k: nat, c: Condition)
    requires ReadsThrough(before, h, f, lo, hi, k)
    requires || (after == before && forall row :: Clause(h, f, lo, hi, row, k))
             || (after == before + [c] && forall row :: Holds(c, row) <==> Clause(h, f, lo, hi, row, k))
    ensures ReadsThrough(after, h, f, lo, hi, k + 1)
  {
    SelectsAppend(before, c);
  }

  /** The id filter is not a number in range: `toLong()` / `toInt()` throws. */
  predicate IdRejected(h: HenteModel, lo: int, hi: int) {
    h.id != "" && ParseInteger(h.id, lo, hi).None?
  }

  /** The first exception building the query would raise, if any. */
  function QueryFailure(h: HenteModel, f: Formats, lo: int, hi: int): Option<Failure> {
    if IdRejected(h, lo, hi) then Some(NumberFormat)
    else if !ValidDokumentDato(f, h.dokumentdato) then Some(InvalidDateFormat)
    else None
  }

  /** Build the WHERE clause of a filter, one `andWhere` per non-empty field, in source order. */
  method BuildQuery(h: HenteModel, f: Formats, lo: int, hi: int) returns (r: Result<Query, Failure>)
    ensures r.Err? <==> QueryFailure(h, f, lo, hi).Some?
    ensures r.Err? ==> r.error == QueryFailure(h, f, lo, hi).value
    ensures r.Ok? ==> forall row :: Selects(r.value, row) <==> Matches(h, f, lo, hi, row)
  {
    var query: Query := [];
    if h.id != "" {
      var id := ParseInteger(h.id, lo, hi);
      if id.None? {
        return Err(NumberFormat);
      }
      query := AndWhere(query, IdIs(id.value));
      Narrow([], query, h, f, lo, hi, 0, IdIs(id.value));
    } else {
      Narrow([], query, h, f, lo, hi, 0, IdIs(0));
    }
    query := AndTextFields(query, h, f, lo, hi);
    ghost var before := query;
    if h.dokumentdato != "" {
      var day := f.parseDay(h.dokumentdato);
      if day.None? {
        return Err(InvalidDateFormat);
      }
      query := AndWhere(query, DokumentdatoIs(day.value));
      Narrow(before, query, h, f, lo, hi, 7, DokumentdatoIs(day.value));
    } else {
      Narrow(before, query, h, f, lo, hi, 7, DokumentdatoIs(Instant(0)));
    }
    before := query;
    query := AndWhere(query, KonfidentielltIs(false));
    Narrow(before, query, h, f, lo, hi, 8, KonfidentielltIs(false));
    ThroughAllIsMatches(h, f, lo, hi);
    r := Ok(query);
  }

  /** The six text filters of BuildQuery, aktoerid to dokumentasjonId, each added when non-empty. */
  method AndTextFields(query: Query, h: HenteModel, f: Formats, lo: int, hi: int) returns (r: Query)
    requires ReadsThrough(query, h, f, lo, hi, 1)
    ensures ReadsThrough(r, h, f, lo, hi, 7)
  {
    r := AndIfPresent(query, h.aktoerid, AktoeridIs(h.aktoerid), h, f, lo, hi, 1);
    r := AndIfPresent(r, h.fnr, FnrIs(h.fnr), h, f, lo, hi, 2);
    r := AndIfPresent(r, h.orgnr, OrgnrIs(h.orgnr), h, f, lo, hi, 3);
    r := AndIfPresent(r, h.tema, TemaIs(h.tema), h, f, lo, hi, 4);
    r := AndIfPresent(r, h.kilde, KildeIs(h.kilde), h, f, lo, hi, 5);
    r := AndIfPresent(r, h.dokumentasjonId, DokumentasjonIdIs(h.dokumentasjonId), h, f, lo, hi, 6);
  }

  /** One text filter: `andWhere { column eq field }` when the field is not empty. */
  method AndIfPresent(query: Query, field: string, c: Condition, ghost h: HenteModel, ghost f: Formats,
                      ghost lo: int, ghost hi: int, ghost k: nat)
    returns (r: Query)
    requires ReadsThrough(query, h, f, lo, hi, k)
    requires field == "" ==> forall row :: Clause(h, f, lo, hi, row, k)
    requires field != "" ==> forall row :: Holds(c, row) <==> Clause(h, f, lo, hi, row, k)
    ensures ReadsThrough(r, h, f, lo, hi, k + 1)
    ensures r == query || r == query + [c]
  {
    r := query;
    if field != "" {
      r := AndWhere(r, c);
    }
    Narrow(query, r, h, f, lo, hi, k, c);
  }

  /** The rows a filter finds, in table order. */
  function FilterMatches(rows: seq<Row>, h: HenteModel, f: Formats, lo: int, hi: int): seq<Row>
    decreases |rows|
  {
    if rows == [] then []
    else (if Matches(h, f, lo, hi, rows[0]) then [rows[0]] else []) + FilterMatches(rows[1..], h, f, lo, hi)
  }

  /** A query equivalent to the filter selects exactly the rows the filter finds. */
  lemma {:induction false} SelectAgrees(rows: seq<Row>, q: Query, h: HenteModel, f: Formats, lo: int, hi: int)
    requires forall row :: Selects(q, row) <==> Matches(h, f, lo, hi, row)
    ensures Select(rows, q) == FilterMatches(rows, h, f, lo, hi)
    decreases |rows|
  {
    if rows != [] {
      SelectAgrees(rows[1..], q, h, f, lo, hi);
    }
  }

  lemma {:induction false} FilterMatchesMembers(rows: seq<Row>, h: HenteModel, f: Formats, lo: int, hi: int)
    ensures forall row :: row in FilterMatches(rows, h, f, lo, hi) <==> row in rows && Matches(h, f, lo, hi, row)
    decreases |rows|
  {
    if rows != [] {
      FilterMatchesMembers(rows[1..], h, f, lo, hi);
      assert rows == [rows[0]] + rows[1..];
    }
  }

  /** A stored row as `/hente` shows it: every column, the text in full. */
  function ToHente(row: Row, f: Formats): HenteResponse {
    HenteResponse(row.id, f.printStamp(row.dato), row.opprettetAv, row.kilde, row.dokumentasjonId,
                  row.dokumentasjon, f.printDay(row.dokumentdato), row.aktoerid, row.fnr,
                  row.orgnr, row.tema)
  }

  function MapToHente(rows: seq<Row>, f: Formats): (r: seq<HenteResponse>)
    ensures |r| == |rows| && forall i :: 0 <= i < |rows| ==> r[i] == ToHente(rows[i], f)
  {
    seq(|rows|, i requires 0 <= i < |rows| => ToHente(rows[i], f))
  }

  function ById(x: HenteResponse): int {
    x.id
  }

  /** What a read of one table answers: the found rows, shown in full, sorted by id. */
  function Lookup(rows: seq<Row>, h: HenteModel, f: Formats, lo: int, hi: int): Result<seq<HenteResponse>, Failure> {
    match QueryFailure(h, f, lo, hi)
    case Some(e) => Err(e)
    case None => Ok(SortBy(MapToHente(FilterMatches(rows, h, f, lo, hi), f), ById))
  }

  /**
   * A successful read is sorted by id, and holds exactly the responses of the non-confidential
   * rows that match the filter, each as often as such rows give it.
   */
  lemma LookupProperties(rows: seq<Row>, h: HenteModel, f: Formats, lo: int, hi: int)
    requires QueryFailure(h, f, lo, hi).None?
    ensures var r := Lookup(rows, h, f, lo, hi);
      && r.Ok?
      && SortedBy(r.value, ById)
      && multiset(r.value) == multiset(MapToHente(FilterMatches(rows, h, f, lo, hi), f))
      && forall x :: x in r.value <==>
           exists row :: row in rows && Matches(h, f, lo, hi, row) && x == ToHente(row, f)
  {
    var found := FilterMatches(rows, h, f, lo, hi);
    var shown := MapToHente(found, f);
    SortBySorted(shown, ById);
    FilterMatchesMembers(rows, h, f, lo, hi);
    MapToHenteMembers(found, f);
    var r := SortBy(shown, ById);
    assert forall x :: x in r <==> x in shown by {
      forall x ensures x in r <==> x in shown {
        assert x in r <==> x in multiset(r);
        assert x in shown <==> x in multiset(shown);
      }
    }
  }

  /** The responses shown for some rows are exactly those of the rows. */
  lemma MapToHenteMembers(rows: seq<Row>, f: Formats)
    ensures forall x :: x in MapToHente(rows, f) <==> exists row :: row in rows && x == ToHente(row, f)
  {
    var shown := MapToHente(rows, f);
    forall x ensures x in shown <==> exists row :: row in rows && x == ToHente(row, f) {
      if x in shown {
        var i :| 0 <= i < |shown| && shown[i] == x;
        assert rows[i] in rows;
      }
      if exists row :: row in rows && x == ToHente(row, f) {
        var row :| row in rows && x == ToHente(row, f);
        var i :| 0 <= i < |rows| && rows[i] == row;
        assert shown[i] == x;
      }
    }
  }

  /** Confidential rows are never found, whatever the filter. */
  lemma ConfidentialNeverFound(rows: seq<Row>, h: HenteModel, f: Formats, lo: int, hi: int, row: Row)
    requires row.konfidentiellt
    ensures row !in FilterMatches(rows, h, f, lo, hi)
  {
    FilterMatchesMembers(rows, h, f, lo, hi);
  }

  /**
   * A filter is empty exactly when it finds every non-confidential row: an empty filter
   * restricts nothing, and each non-empty field rules some public row out.
   */
  lemma EmptyFilterRestrictsNothing(h: HenteModel, f: Formats, lo: int, hi: int)
    ensures h.IsEmpty() <==> forall row: Row :: !row.konfidentiellt ==> Matches(h, f, lo, hi, row)
  {
    if !h.IsEmpty() {
      var parsedId := ParseInteger(h.id, lo, hi);
      var parsedDay := f.parseDay(h.dokumentdato);
      var outsider := Row(
        if parsedId.Some? then parsedId.value + 1 else 0,
        Instant(0), "", h.kilde + "x", h.dokumentasjonId + "x", [],
        if parsedDay.Some? then Instant(parsedDay.value.millis + 1) else Instant(0),
        h.aktoerid + "x", h.fnr + "x", h.orgnr + "x", h.tema + "x", false);
      assert h.kilde + "x" != h.kilde by { assert |h.kilde + "x"| != |h.kilde|; }
      assert h.dokumentasjonId + "x" != h.dokumentasjonId by { assert |h.dokumentasjonId + "x"| != |h.dokumentasjonId|; }
      assert h.aktoerid + "x" != h.aktoerid by { assert |h.aktoerid + "x"| != |h.aktoerid|; }
      assert h.fnr + "x" != h.fnr by { assert |h.fnr + "x"| != |h.fnr|; }
      assert h.orgnr + "x" != h.orgnr by { assert |h.orgnr + "x"| != |h.orgnr|; }
      assert h.tema + "x" != h.tema by { assert |h.tema + "x"| != |h.tema|; }
      assert !Matches(h, f, lo, hi, outsider);
    }
  }

  /**
   * Reading back: a non-confidential row is found by its own document id, and by its own id
   * written in decimal (when the id is within the parser's range), and shows every field as
   * written, the text in full.
   */
  lemma RowFoundByItsKeys(m: ArkivModel, id: nat, now: Instant, day: Instant, f: Formats, lo: int, hi: int)
    requires !m.konfidentiellt && lo <= id <= hi
    ensures Matches(HenteModel(dokumentasjonId := m.dokumentasjonId), f, lo, hi, RowOf(m, id, now, day))
    ensures Matches(HenteModel(id := NatToDecimal(id)), f, lo, hi, RowOf(m, id, now, day))
    ensures var x := ToHente(RowOf(m, id, now, day), f);
      && x.dokumentasjon == m.dokumentasjon && x.opprettetAv == m.opprettetAv && x.kilde == m.kilde
      && x.aktoerid == m.aktoerid && x.fnr == m.fnr && x.orgnr == m.orgnr && x.tema == m.tema
      && x.dokumentdato == f.printDay(day) && x.id == id
  {
    ParseNatToDecimal(id, lo, hi);
  }

  /** Rows kept in increasing id order come out of a read already sorted: the sort keeps them. */
  lemma {:induction false} LookupOfOrderedTable(rows: seq<Row>, h: HenteModel, f: Formats, lo: int, hi: int)
    requires IdsIncreasing(rows) && QueryFailure(h, f, lo, hi).None?
    ensures Lookup(rows, h, f, lo, hi) == Ok(MapToHente(FilterMatches(rows, h, f, lo, hi), f))
  {
    var found := FilterMatches(rows, h, f, lo, hi);
    FilteredStaysOrdered(rows, h, f, lo, hi);
    var shown := MapToHente(found, f);
    assert SortedBy(shown, ById) by {
      forall i, j | 0 <= i < j < |shown| ensures ById(shown[i]) <= ById(shown[j]) {
        assert shown[i].id == found[i].id && shown[j].id == found[j].id;
      }
    }
    SortByOfSorted(shown, ById);
  }

  lemma {:induction false} FilteredStaysOrdered(rows: seq<Row>, h: HenteModel, f: Formats, lo: int, hi: int)
    requires IdsIncreasing(rows)
    ensures IdsIncreasing(FilterMatches(rows, h, f, lo, hi))
    decreases |rows|
  {
    if rows != [] {
      var rest := FilterMatches(rows[1..], h, f, lo, hi);
      assert IdsIncreasing(rows[1..]) by {
        forall i, j | 0 <= i < j < |rows[1..]| ensures rows[1..][i].id < rows[1..][j].id {
          assert rows[1..][i] == rows[i + 1] && rows[1..][j] == rows[j + 1];
        }
      }
      FilteredStaysOrdered(rows[1..], h, f, lo, hi);
      FilterMatchesMembers(rows[1..], h, f, lo, hi);
      forall j | 0 <= j < |rest| ensures rows[0].id < rest[j].id {
        assert rest[j] in rows[1..];
        var m :| 0 <= m < |rows[1..]| && rows[1..][m] == rest[j];
        assert rows[m + 1] == rest[j];
      }
      var r := (if Matches(h, f, lo, hi, rows[0]) then [rows[0]] else []) + rest;
      forall i, j | 0 <= i < j < |r| ensures r[i].id < r[j].id {
        if Matches(h, f, lo, hi, rows[0]) {
          assert r[j] == rest[j - 1];
          if i > 0 { assert r[i] == rest[i - 1]; }
        } else {
          assert r == rest;
        }
      }
    }
  }

  /** Read one table: build the query, run it, show the rows and sort them by id. */
  method Hente(table: ArkivTable, h: HenteModel, f: Formats, lo: int, hi: int)
    returns (r: Result<seq<HenteResponse>, Failure>)
    ensures r == Lookup(table.rows, h, f, lo, hi)
  {
    var query := BuildQuery(h, f, lo, hi);
    if query.Err? {
      return Err(query.error);
    }
    var resultRow := Select(table.rows, query.value);
    SelectAgrees(table.rows, query.value, h, f, lo, hi);
    var result := MapToHente(resultRow, f);
    r := Ok(SortBy(result, ById));
  }

  /** `henteArchiveV4`: read the current `Arkiv` table, the id filter read as a Long. */
  method HenteArchiveV4(arkiv: ArkivTable, henteRequest: HenteModel, f: Formats)
    returns (r: Result<seq<HenteResponse>, Failure>)
    ensures r == Lookup(arkiv.rows, henteRequest, f, LongMin, LongMax)
  {
    r := Hente(arkiv, henteRequest, f, LongMin, LongMax);
  }
}
