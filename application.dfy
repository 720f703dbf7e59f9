/**
 * The HTTP side of the current (http4k) service: the `/arkiv` and `/hente` handlers with the
 * request counters they keep, and the delay before the nightly shutdown. Token validation
 * is an input (whether the request carries a valid token), JSON decoding is not modelled
 * (the handlers receive the decoded request), and what the store connection does is an
 * input too.
 */
module Application {
  import opened Wrappers
  import opened Decimal
  import opened Tables
  import opened Models
  import opened KotlinCollections
  import opened ArkivDb

  const OK: int := 200
  const Created: int := 201
  const BadRequest: int := 400
  const Unauthorized: int := 401
  const ServiceUnavailable: int := 503

  const InvalidDatesText: string := "One or more payload contain invalid dokumentdato (correct format is yyyy-MM-dd)"
  const NoParametersText: string := "Request contains no search parameters, that is not allowed"
  const InvalidDateText: string := "Request contains invalid dokumentdato (correct format is empty or yyyy-MM-dd)"
  const HenteDeniedText: string := "Hente call denied - missing valid token"
  const TransientText: string := "Caught transient connection exception, message: "

  /** A response body: nothing, a text, or the (JSON-encoded) list of responses. */
  datatype Body = NoBody | Text(text: string) | Archived(archived: seq<ArkivResponse>) | Found(found: seq<HenteResponse>)

  /** What a handler does: answer with a status, or let an exception escape to the server. */
  datatype Outcome = Respond(status: int, body: Body) | Propagate(failure: Failure)

  /**
   * How the database behaves when the handler opens its transaction: it works, it throws a
   * SQLTransientConnectionException, or it throws some other exception. Either exception is
   * thrown before anything is read or written.
   */
  datatype Connection = Available | TransientOutage(message: string) | Broken

  /** The gauges of `Metrics` that the handlers move. */
  class Metrics {
    var requestArkiv: nat
    var requestHente: nat
    var insertedEntries: nat
    var issues: nat

    constructor ()
      ensures requestArkiv == 0 && requestHente == 0 && insertedEntries == 0 && issues == 0
    {
      requestArkiv := 0;
      requestHente := 0;
      insertedEntries := 0;
      issues := 0;
    }
  }

  // ---------------------------------------------------------------- /arkiv

  /** In development, a batch whose first item comes from source "test" needs no token. */
  predicate DevBypass(isDev: bool, arkivItems: seq<ArkivModel>) {
    isDev && arkivItems != [] && arkivItems[0].kilde == "test"
  }

  predicate AllDatesValid(f: Formats, arkivItems: seq<ArkivModel>) {
    forall i :: 0 <= i < |arkivItems| ==> arkivItems[i].HasValidDokumentDato(f)
  }

  /** How far an `/arkiv` request gets before the store is called. */
  datatype ArkivGate = FirstOfEmpty | ArkivDenied | InvalidDates | ArkivProceeds

  /**
   * In development an empty batch makes `first()` throw; otherwise the request goes on only
   * with the bypass or a valid token, and then only when every item's date is valid.
   */
  function ArkivGateOf(isDev: bool, arkivItems: seq<ArkivModel>, tokenValid: bool, f: Formats): (g: ArkivGate)
    ensures g == FirstOfEmpty <==> isDev && arkivItems == []
    ensures g == ArkivDenied <==> (!isDev || arkivItems != []) && !DevBypass(isDev, arkivItems) && !tokenValid
    ensures g == ArkivProceeds <==>
      (!isDev || arkivItems != []) && (DevBypass(isDev, arkivItems) || tokenValid) && AllDatesValid(f, arkivItems)
  {
    if isDev && arkivItems == [] then FirstOfEmpty
    else if !(DevBypass(isDev, arkivItems) || tokenValid) then ArkivDenied
    else if exists i :: 0 <= i < |arkivItems| && !arkivItems[i].HasValidDokumentDato(f) then InvalidDates
    else ArkivProceeds
  }

  /** Without the bypass, no request without a valid token reaches the store. */
  lemma NoStoreWithoutToken(arkivItems: seq<ArkivModel>, f: Formats)
    ensures ArkivGateOf(false, arkivItems, false, f) == ArkivDenied
  {
  }

  /** One invalid date stops the whole batch, whatever the other items are. */
  lemma OneBadDateRejectsBatch(isDev: bool, arkivItems: seq<ArkivModel>, tokenValid: bool, f: Formats, i: nat)
    requires i < |arkivItems| && !arkivItems[i].HasValidDokumentDato(f)
    requires DevBypass(isDev, arkivItems) || tokenValid
    ensures ArkivGateOf(isDev, arkivItems, tokenValid, f) == InvalidDates
  {
  }

  /**
   * POST /arkiv. The request counter moves first. A request that passes the gate is written
   * to the current table; a transient connection failure answers 503; every exception,
   * the transient one included, counts as an issue, and all but the transient one escape.
   * On success the answer is 201 with one response per stored row, counted as inserted.
   */
  method PostArkiv(store: ArchiveStore, metrics: Metrics, isDev: bool, f: Formats,
                   arkivItems: seq<ArkivModel>, tokenValid: bool, connection: Connection, clock: nat -> Instant)
    returns (o: Outcome)
    requires store.Valid()
    modifies metrics, store.arkiv
    ensures store.Valid()
    ensures metrics.requestArkiv == old(metrics.requestArkiv) + 1
    ensures metrics.requestHente == old(metrics.requestHente)
    ensures store.arkivV3.rows == old(store.arkivV3.rows) && store.arkivV4.rows == old(store.arkivV4.rows)
    ensures var g := ArkivGateOf(isDev, arkivItems, tokenValid, f);
      g != ArkivProceeds ==>
        && store.arkiv.rows == old(store.arkiv.rows) && store.arkiv.nextId == old(store.arkiv.nextId)
        && metrics.insertedEntries == old(metrics.insertedEntries)
        && o == (match g
                 case FirstOfEmpty => Propagate(NoSuchElement)
                 case ArkivDenied => Respond(Unauthorized, NoBody)
                 case _ => Respond(BadRequest, Text(InvalidDatesText)))
        && metrics.issues == old(metrics.issues) + (if g == FirstOfEmpty then 1 else 0)
    ensures ArkivGateOf(isDev, arkivItems, tokenValid, f) == ArkivProceeds && !connection.Available? ==>
      && store.arkiv.rows == old(store.arkiv.rows) && store.arkiv.nextId == old(store.arkiv.nextId)
      && metrics.insertedEntries == old(metrics.insertedEntries)
      && metrics.issues == old(metrics.issues) + 1
      && o == (if connection.TransientOutage? then Respond(ServiceUnavailable, Text(TransientText + connection.message))
               else Propagate(StoreError))
    ensures var split, room := SplitToFit(arkivItems), IdRoom(store.arkiv.generation, old(store.arkiv.nextId));
      ArkivGateOf(isDev, arkivItems, tokenValid, f) == ArkivProceeds && connection.Available? ==>
      if Completes(f, split, room) then
        && o == Respond(Created, Archived(Responses(split, old(store.arkiv.nextId), clock, f)))
        && store.arkiv.rows == old(store.arkiv.rows) + InsertedRows(split, old(store.arkiv.nextId), clock, f)
        && store.arkiv.nextId == old(store.arkiv.nextId) + |split|
        && metrics.insertedEntries == old(metrics.insertedEntries) + |split|
        && metrics.issues == old(metrics.issues)
      else
        && o == Propagate(StopFailure(f, split, room))
        && store.arkiv.rows == old(store.arkiv.rows)
        && store.arkiv.nextId == old(store.arkiv.nextId) + Stored(f, split, room)
        && metrics.insertedEntries == old(metrics.insertedEntries)
        && metrics.issues == old(metrics.issues) + 1
  {
    metrics.requestArkiv := metrics.requestArkiv + 1;
    if isDev && arkivItems == [] {
      metrics.issues := metrics.issues + 1;
      return Propagate(NoSuchElement);
    }
    var devBypass := isDev && arkivItems[0].kilde == "test";
    if !(devBypass || tokenValid) {
      return Respond(Unauthorized, NoBody);
    }
    var allValid := CheckDates(f, arkivItems);
    if !allValid {
      return Respond(BadRequest, Text(InvalidDatesText));
    }
    match connection {
      case TransientOutage(message) =>
        metrics.issues := metrics.issues + 1;
        o := Respond(ServiceUnavailable, Text(TransientText + message));
      case Broken =>
        metrics.issues := metrics.issues + 1;
        o := Propagate(StoreError);
      case Available =>
        o := StoreArkiv(store, metrics, arkivItems, f, clock);
    }
  }

  /** The `hasValidDokumentDato` check over the whole batch. */
  method CheckDates(f: Formats, arkivItems: seq<ArkivModel>) returns (allValid: bool)
    ensures allValid <==> AllDatesValid(f, arkivItems)
  {
    allValid := true;
    for i := 0 to |arkivItems|
      invariant allValid <==> forall j :: 0 <= j < i ==> arkivItems[j].HasValidDokumentDato(f)
    {
      if !arkivItems[i].HasValidDokumentDato(f) {
        allValid := false;
      }
    }
  }

  /**
   * The store call of POST /arkiv over a working connection: 201 with the responses and the
   * inserted count on success, otherwise the failure escapes and counts as an issue.
   */
  method StoreArkiv(store: ArchiveStore, metrics: Metrics, arkivItems: seq<ArkivModel>, f: Formats,
                    clock: nat -> Instant)
    returns (o: Outcome)
    requires store.Valid()
    modifies metrics, store.arkiv
    ensures store.Valid()
    ensures metrics.requestArkiv == old(metrics.requestArkiv)
    ensures metrics.requestHente == old(metrics.requestHente)
    ensures store.arkivV3.rows == old(store.arkivV3.rows) && store.arkivV4.rows == old(store.arkivV4.rows)
    ensures var split, room := SplitToFit(arkivItems), IdRoom(store.arkiv.generation, old(store.arkiv.nextId));
      if Completes(f, split, room) then
        && o == Respond(Created, Archived(Responses(split, old(store.arkiv.nextId), clock, f)))
        && store.arkiv.rows == old(store.arkiv.rows) + InsertedRows(split, old(store.arkiv.nextId), clock, f)
        && store.arkiv.nextId == old(store.arkiv.nextId) + |split|
        && metrics.insertedEntries == old(metrics.insertedEntries) + |split|
        && metrics.issues == old(metrics.issues)
      else
        && o == Propagate(StopFailure(f, split, room))
        && store.arkiv.rows == old(store.arkiv.rows)
        && store.arkiv.nextId == old(store.arkiv.nextId) + Stored(f, split, room)
        && metrics.insertedEntries == old(metrics.insertedEntries)
        && metrics.issues == old(metrics.issues) + 1
  {
    var result := AddArchive(store.arkiv, arkivItems, f, clock);
    if result.Ok? {
      metrics.insertedEntries := metrics.insertedEntries + |result.value|;
      o := Respond(Created, Archived(result.value));
    } else {
      metrics.issues := metrics.issues + 1;
      o := Propagate(result.error);
    }
  }

  /**
   * What the date check leaves to the writer. A batch that passed validation has every
   * non-empty date parsing; an empty date also passes, but the writer parses every date, so
   * the store call succeeds exactly when no item has an empty date or the parser accepts "".
   */
  lemma ValidatedDatesStore(f: Formats, arkivItems: seq<ArkivModel>)
    requires AllDatesValid(f, arkivItems)
    ensures DatesParse(f, SplitToFit(arkivItems)) <==>
      forall i :: 0 <= i < |arkivItems| && arkivItems[i].dokumentdato == "" ==> f.parseDay("").Some?
  {
    var split := SplitToFit(arkivItems);
    if DatesParse(f, split) {
      forall i | 0 <= i < |arkivItems| && arkivItems[i].dokumentdato == "" ensures f.parseDay("").Some? {
        EmptyDateIsParsed(f, arkivItems, i);
      }
    } else {
      var k :| 0 <= k < |split| && f.parseDay(split[k].dokumentdato).None?;
      FailingDateIsEmpty(f, arkivItems, k);
    }
  }

  /** An item with an empty date has a payload, whose date the writer parses. */
  lemma EmptyDateIsParsed(f: Formats, arkivItems: seq<ArkivModel>, i: nat)
    requires DatesParse(f, SplitToFit(arkivItems))
    requires i < |arkivItems| && arkivItems[i].dokumentdato == ""
    ensures f.parseDay("").Some?
  {
    var split := SplitToFit(arkivItems);
    SplitToFitKeepsItems(arkivItems);
    assert HasPayloadOf(split, arkivItems[i]);
    var k :| 0 <= k < |split| && split[k].(dokumentasjon := arkivItems[i].dokumentasjon) == arkivItems[i];
    assert split[k].dokumentdato == "";
  }

  /** After validation, a payload whose date does not parse comes from an item with an empty date. */
  lemma FailingDateIsEmpty(f: Formats, arkivItems: seq<ArkivModel>, k: nat)
    requires AllDatesValid(f, arkivItems)
    requires k < |SplitToFit(arkivItems)| && f.parseDay(SplitToFit(arkivItems)[k].dokumentdato).None?
    ensures exists i :: 0 <= i < |arkivItems| && arkivItems[i].dokumentdato == ""
    ensures f.parseDay("").None?
  {
    var split := SplitToFit(arkivItems);
    SplitToFitOrigin(arkivItems);
    assert FromItem(split[k], arkivItems);
    var i :| 0 <= i < |arkivItems| && split[k].(dokumentasjon := arkivItems[i].dokumentasjon) == arkivItems[i];
    assert arkivItems[i].HasValidDokumentDato(f);
  }

  /** A batch can be answered with more responses than items: long texts take several rows. */
  lemma MoreRowsThanItems(arkivItems: seq<ArkivModel>)
    ensures |arkivItems| <= |SplitToFit(arkivItems)|
    ensures (exists i :: 0 <= i < |arkivItems| && |arkivItems[i].dokumentasjon| > DokumentasjonLength) ==>
      |arkivItems| < |SplitToFit(arkivItems)|
  {
    SplitToFitProperties(arkivItems);
    if exists i :: 0 <= i < |arkivItems| && |arkivItems[i].dokumentasjon| > DokumentasjonLength {
      var i :| 0 <= i < |arkivItems| && |arkivItems[i].dokumentasjon| > DokumentasjonLength;
      TotalRowsAboveCount(arkivItems, i);
    }
  }

  lemma {:induction false} TotalRowsAboveCount(arkivItems: seq<ArkivModel>, i: nat)
    requires i < |arkivItems| && |arkivItems[i].dokumentasjon| > DokumentasjonLength
    ensures |arkivItems| < TotalRows(arkivItems)
    decreases |arkivItems|
  {
    var n := |arkivItems[0].dokumentasjon|;
    assert 1 <= RowCount(n) by {
      if n >= DokumentasjonLength {
        DivisionIsUnique(n + DokumentasjonLength - 1, DokumentasjonLength, (n + DokumentasjonLength - 1) / DokumentasjonLength);
      }
    }
    TotalRowsAtLeastCount(arkivItems[1..]);
    if i == 0 {
      assert 2 <= RowCount(n) by {
        assert 2 * DokumentasjonLength <= n + DokumentasjonLength - 1;
        MultiplyMonotone(2, (n + DokumentasjonLength - 1) / DokumentasjonLength, DokumentasjonLength);
      }
    } else {
      assert arkivItems[1..][i - 1] == arkivItems[i];
      TotalRowsAboveCount(arkivItems[1..], i - 1);
    }
  }

  lemma {:induction false} TotalRowsAtLeastCount(arkivItems: seq<ArkivModel>)
    ensures |arkivItems| <= TotalRows(arkivItems)
    decreases |arkivItems|
  {
    if arkivItems != [] {
      TotalRowsAtLeastCount(arkivItems[1..]);
    }
  }

  // ---------------------------------------------------------------- /hente

  /** How far a `/hente` request gets before the tables are read. */
  datatype HenteGate = HenteDenied | NoParameters | InvalidDate | HenteProceeds

  /** The bypass or a token first, then a non-empty filter, then a valid date. */
  function HenteGateOf(isDev: bool, h: HenteModel, tokenValid: bool, f: Formats): (g: HenteGate)
    ensures g == HenteDenied <==> !(isDev && h.kilde == "test") && !tokenValid
    ensures g == HenteProceeds <==>
      ((isDev && h.kilde == "test") || tokenValid) && !h.IsEmpty() && h.HasValidDokumentDato(f)
    ensures g == InvalidDate ==> !h.IsEmpty()
  {
    if !((isDev && h.kilde == "test") || tokenValid) then HenteDenied
    else if h.IsEmpty() then NoParameters
    else if !h.HasValidDokumentDato(f) then InvalidDate
    else HenteProceeds
  }

  /** An empty filter is refused before its date is looked at (its date is empty anyway). */
  lemma EmptyFilterRefusedFirst(isDev: bool, h: HenteModel, tokenValid: bool, f: Formats)
    requires h.IsEmpty() && ((isDev && h.kilde == "test") || tokenValid)
    ensures HenteGateOf(isDev, h, tokenValid, f) == NoParameters
  {
  }

  /**
   * POST /hente. The request counter moves first; there is no exception handler, so a failing
   * connection or id conversion escapes, with no 503 and no issue counted. The answer is the
   * legacy ArkivV3 result (id read as an Int) followed by the current Arkiv result (id read as a Long), each sorted by id on its own.
   */
  method PostHente(store: ArchiveStore, metrics: Metrics, isDev: bool, f: Formats, henteModel: HenteModel,
                   tokenValid: bool, connection: Connection)
    returns (o: Outcome)
    modifies metrics
    ensures metrics.requestHente == old(metrics.requestHente) + 1
    ensures metrics.requestArkiv == old(metrics.requestArkiv)
    ensures metrics.insertedEntries == old(metrics.insertedEntries) && metrics.issues == old(metrics.issues)
    ensures match HenteGateOf(isDev, henteModel, tokenValid, f)
      case HenteDenied => o == Respond(Unauthorized, Text(HenteDeniedText))
      case NoParameters => o == Respond(BadRequest, Text(NoParametersText))
      case InvalidDate => o == Respond(BadRequest, Text(InvalidDateText))
      case HenteProceeds =>
        if connection.TransientOutage? then o == Propagate(TransientConnection)
        else if connection.Broken? then o == Propagate(StoreError)
        else
          var legacy := Lookup(store.arkivV3.rows, henteModel, f, IntMin, IntMax);
          var current := Lookup(store.arkiv.rows, henteModel, f, LongMin, LongMax);
          o == (if legacy.Err? then Propagate(legacy.error)
                else if current.Err? then Propagate(current.error)
                else Respond(OK, Found(legacy.value + current.value)))
  {
    metrics.requestHente := metrics.requestHente + 1;
    var devBypass := isDev && henteModel.kilde == "test";
    if !(devBypass || tokenValid) {
      return Respond(Unauthorized, Text(HenteDeniedText));
    }
    if henteModel.IsEmpty() {
      return Respond(BadRequest, Text(NoParametersText));
    }
    if !henteModel.HasValidDokumentDato(f) {
      return Respond(BadRequest, Text(InvalidDateText));
    }
    match connection {
      case TransientOutage(_) => return Propagate(TransientConnection);
      case Broken => return Propagate(StoreError);
      case Available =>
    }
    var legacy := Hente(store.arkivV3, henteModel, f, IntMin, IntMax);
    if legacy.Err? {
      return Propagate(legacy.error);
    }
    var current := HenteArchiveV4(store.arkiv, henteModel, f);
    if current.Err? {
      return Propagate(current.error);
    }
    o := Respond(OK, Found(legacy.value + current.value));
  }

  /** After the gate only the id conversion can fail: the date has been checked. */
  lemma OnlyIdCanFail(h: HenteModel, f: Formats, lo: int, hi: int)
    requires h.HasValidDokumentDato(f)
    ensures QueryFailure(h, f, lo, hi).Some? ==> QueryFailure(h, f, lo, hi) == Some(NumberFormat)
  {
  }

  /**
   * Each part of a `/hente` answer is sorted by id, but the answer as a whole need not be:
   * a legacy row with id 5 and a current row with id 3 come out as 5, 3.
   */
  lemma CombinedAnswerNotSorted(f: Formats)
    ensures var legacyRow := Row(5, Instant(0), "", "k", "", [], Instant(0), "", "", "", "", false);
      var currentRow := legacyRow.(id := 3);
      var h := HenteModel(kilde := "k");
      var legacy := Lookup([legacyRow], h, f, IntMin, IntMax);
      var current := Lookup([currentRow], h, f, LongMin, LongMax);
      && legacy.Ok? && current.Ok?
      && SortedBy(legacy.value, ById) && SortedBy(current.value, ById)
      && !SortedBy(legacy.value + current.value, ById)
  {
    var legacyRow := Row(5, Instant(0), "", "k", "", [], Instant(0), "", "", "", "", false);
    var currentRow := legacyRow.(id := 3);
    var h := HenteModel(kilde := "k");
    assert Matches(h, f, IntMin, IntMax, legacyRow);
    assert Matches(h, f, LongMin, LongMax, currentRow);
    assert FilterMatches([legacyRow], h, f, IntMin, IntMax) == [legacyRow];
    assert FilterMatches([currentRow], h, f, LongMin, LongMax) == [currentRow];
    var a := MapToHente([legacyRow], f);
    var b := MapToHente([currentRow], f);
    assert SortBy(a, ById) == a by {
      assert SortBy(a[1..], ById) == [];
    }
    assert SortBy(b, ById) == b by {
      assert SortBy(b[1..], ById) == [];
    }
    var both := a + b;
    assert ById(both[0]) == 5 && ById(both[1]) == 3;
  }

  // ---------------------------------------------------------------- shutdown

  const DayMillis: int := 86400000
  /** The http4k service shuts down three days after the last 02:00 mark once it has passed. */
  const ShutdownDays: nat := 3

  /**
   * `scheduleServerShutdown`: `next` is today's 02:00 in milliseconds; before it the wait is
   * until then, after it until the same time `days` days later.
   */
  function DelayMillis(now: int, next: int, days: nat): int {
    if now < next then next - now else next + days * DayMillis - now
  }

  /**
   * The wait always ends on a 02:00 mark (a whole number of days after today's), is positive
   * before today's mark, and after it is positive and at most `days` days as long as now is
   * within `days` days of the mark.
   */
  lemma DelayEndsAtShutdownMark(now: int, next: int, days: nat)
    ensures var d := DelayMillis(now, next, days);
      && (now + d - next) % DayMillis == 0
      && (now < next ==> 0 < d)
      && (next <= now < next + days * DayMillis ==> 0 < d <= days * DayMillis)
  {
    var d := DelayMillis(now, next, days);
    if now >= next {
      assert now + d - next == days * DayMillis;
      assert (days * DayMillis) % DayMillis == 0;
    }
  }
}
