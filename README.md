# sf-arkiv archive core in Dafny

A Dafny model of the archive service sf-arkiv. In its current (http4k) form the service takes
batches of documents on `POST /arkiv` and stores them in the `Arkiv` table. It answers searches
on `POST /hente` from the frozen `ArkivV3` generation and from the current table. The older
(ktor) form of the service lives alongside it. Its Kafka job archives henvendelse records and
keeps the consumer offset in an `OffsetStorage` row.

The model covers:

- **The writer** (`addArchive`, module `ArkivDb`):
  - a document whose text does not fit the 131072-unit column is split into chunks;
  - one row is inserted per payload, and the table assigns the id from a sequence that ends at the id type's maximum;
  - one response is built per row, with the text summarised to 30 code units plus a length note;
  - for a confidential document, the summary and the identifying fields are replaced by markers.
- **The reader** (`henteArchiveV4`, the legacy `henteArchive` and `henteId`):
  - the query is one `andWhere` per non-empty filter field, plus `konfidentiellt = false`;
  - the answer shows the full text and is sorted by id.
- **The request checks** `isEmpty` and `hasValidDokumentDato` of both service versions (modules `Models`, `MainModels`).
- **The `/arkiv` and `/hente` handlers** (module `Application`):
  - their order of decisions (token or development bypass, validation, store call), their status codes and their counters;
  - the nightly-shutdown delay.
- **The legacy database object** (module `LegacyDb`): the offset storage (`storeOffset` / `henteOffset`, with the
  32-bit truncation of the stored offset), `henteId` and the legacy writer and reader.
- **The Kafka jobs** (module `Kafka`): the batch callback of `testKafkaRead` and the `kafkaSample` countdown.
  - The callback's filter on offset, parse-failure abort, archive, and offset advance.
- **The connection set-up** (module `PostgresDatabase`): role names, the bounded retry with
  doubling waits, and the walk along an exception's cause chain.
- **The alive/ready state of the ktor service** (module `MainApplication`).

Shared modules:

- `Tables`: the row shape, the column widths and the table as a class: rows in insertion order and the next id.
- `KotlinText`: Kotlin strings as sequences of UTF-16 code units, which is what `length`, `substring`
  and `chunked` count. The document text `dokumentasjon` is such a string throughout.
- `KotlinCollections`: the two Kotlin library operations the code relies on, `chunked` and `sortedBy`.
- `Decimal`: JVM integer text conversion.
- `Wrappers`: `Option`, `Result` and the failure kinds.

Date parsing and printing (Joda `yyyy-MM-dd` and `yyyy-MM-dd HH:mm:ss`) are parameters: a
`Formats` record with a partial parse and two prints. The clock is a parameter: `clock(k)` is the
time read by the k-th insert of a call. Token validation is a boolean input, and the behaviour of
the database connection is a `Connection` input.

## Model

| member | source | states |
|---|---|---|
| Decimal.NatToDecimalDigits | src/no/nav/sf/arkiv/database/DB.kt:186 | The length written into a summary is a non-empty string of decimal digits with no leading zero, and it reads back as the number. |
| Decimal.NatToDecimalInjective | src/no/nav/sf/arkiv/database/DB.kt:186 | Different lengths are written as different texts. |
| Decimal.ParseInteger | src/no/nav/sf/arkiv/database/DB.kt:145 | `toLong`/`toInt` fail on an empty text, on a bare sign and on any character other than a digit or a leading sign. On an optional '-' or '+' followed by digits (leading zeros allowed), they give the signed value when it is inside the range and fail otherwise. |
| Decimal.ParseNatToDecimal | src/no/nav/sf/arkiv/database/DB.kt:145 | The decimal text of an id in range parses back to that id. |
| Decimal.ParseNegatedDecimal | src/no/nav/sf/arkiv/database/DB.kt:145 | A minus sign before the decimal text of a number parses as its negation, when that is in range. |
| Decimal.ParseExamples | src/no/nav/sf/arkiv/database/DB.kt:145 | Example: "007", "-5" and "+5" give 7, -5 and 5; "1x", "-" and an out-of-range number fail. |
| Decimal.ToInt32 | src/database/DB.kt:40 | `Long.toInt()` gives a value in the Int range, congruent to the input modulo 2^32, and the input itself when it is already in range. |
| KotlinText.EncodeChar | src/no/nav/sf/arkiv/database/DB.kt:43 | A character is one code unit inside the Basic Multilingual Plane and two (a surrogate pair) outside it. |
| KotlinText.Utf16Length | src/no/nav/sf/arkiv/database/DB.kt:43 | Kotlin's `length` of a text is its number of characters plus one per supplementary character. |
| KotlinText.Utf16Append | src/no/nav/sf/arkiv/database/DB.kt:186 | The code units of a concatenation are those of its parts, one after the other. |
| KotlinText.DecodeUtf16 | src/no/nav/sf/arkiv/database/DB.kt:186 | Reading a text's code units back gives the text. |
| KotlinText.Utf16Injective | src/no/nav/sf/arkiv/database/DB.kt:186 | Different texts are different Kotlin strings. |
| KotlinText.AllSupplementaryDouble | src/no/nav/sf/arkiv/database/DB.kt:43 | A text made only of supplementary characters has twice as many code units as characters. |
| KotlinCollections.ChunkedConcat | src/no/nav/sf/arkiv/database/DB.kt:46 | The chunks of a text, cut in UTF-16 code units, concatenate back to the text. |
| KotlinCollections.ChunkedSizes | src/no/nav/sf/arkiv/database/DB.kt:46 | Every chunk is non-empty and at most the chunk size in code units, and every chunk but the last is exactly the chunk size. |
| KotlinCollections.ChunkedCount | src/no/nav/sf/arkiv/database/DB.kt:46 | A text of n code units (its Kotlin `length`) gives ceil(n / size) chunks. |
| KotlinCollections.ChunkedWhole | src/no/nav/sf/arkiv/database/DB.kt:46 | A non-empty text of at most the chunk size in code units is one chunk: itself. |
| KotlinCollections.SortBySorted | src/no/nav/sf/arkiv/database/DB.kt:179 | `sortedBy` returns a list ordered by the key that is a permutation of its input. |
| KotlinCollections.SortByOfSorted | src/no/nav/sf/arkiv/database/DB.kt:179 | Sorting a list already ordered by the key returns it unchanged. |
| Tables.ArkivTable.Insert | src/no/nav/sf/arkiv/model/Tables.kt:18 | An insert appends the row with the next id, which is larger than every id already in the table, and keeps ids increasing. Once the sequence has handed out its maximum id, the insert fails and changes nothing. |
| Tables.IdRoom | src/objects/ArkivDokumentasjon.kt:18 | The number of ids a sequence can still hand out: up to 2^31 - 1 for ArkivV3's `integer` serial, and up to 2^63 - 1 for the `long` ids. |
| Tables.ArkivTable.Rollback | src/no/nav/sf/arkiv/database/DB.kt:38-130 | Rolling back the call's transaction restores the rows of the snapshot and leaves the id sequence where it is. |
| Models.Defaults | src/no/nav/sf/arkiv/model/Models.kt:7-29 | Every field of a default payload and a default filter is the empty text, the payload's text is empty and it is not confidential. So the default filter is empty, and both defaults pass the date check. |
| MainModels.IsEmptyOlder | src/main/no/nav/sf/arkiv/model/Models.kt:70-72 | The older `isEmpty` holds exactly when the filter is empty once dokumentasjonId and aktoerid are cleared. |
| MainModels.EmptyIsEmptyOlder | src/main/no/nav/sf/arkiv/model/Models.kt:70-72 | Every filter that is empty under the eight-field rule is empty under the six-field rule. |
| MainModels.OlderRuleIgnoresTwoFields | src/main/no/nav/sf/arkiv/model/Models.kt:70-72 | A filter that sets only dokumentasjonId or aktoerid is empty under the older rule but not under the current one. |
| MainModels.OlderDefaults | src/main/no/nav/sf/arkiv/model/Models.kt:6-28 | The older data classes have the same defaults: every text field empty and not confidential, so the default filter is empty under the older rule too. |
| ArkivDb.Summarize | src/no/nav/sf/arkiv/database/DB.kt:182-190 | A text of at most 30 code units is its own summary. A longer one's summary is longer than 30 units and starts with its first 30 units. |
| ArkivDb.SummaryDeterminesLength | src/no/nav/sf/arkiv/database/DB.kt:184-190 | Two long texts with the same summary have the same length in code units and the same first 30 units: the note carries the full length. |
| ArkivDb.SplitPayloadKeepsShort | src/no/nav/sf/arkiv/database/DB.kt:43-46 | A payload whose text fits the column becomes exactly itself, one row, including a text of exactly 131072 code units. |
| ArkivDb.SplitPayloadProperties | src/no/nav/sf/arkiv/database/DB.kt:43-61 | A payload whose text has `len` code units becomes RowCount(len) rows (one when short, ceil(len/131072) otherwise). Each keeps every other field; no text exceeds the column; all but the last are full; the texts concatenate back. |
| ArkivDb.SupplementaryCountTwice | src/no/nav/sf/arkiv/database/DB.kt:43-46 | Example: a text of n supplementary characters has length 2n, so it is split once 2n exceeds the column and its summary notes 2n. |
| ArkivDb.SplitToFitAppend | src/no/nav/sf/arkiv/database/DB.kt:42-63 | Splitting a request made of two parts splits each part in turn: request order is kept. |
| ArkivDb.SplitToFitLength | src/no/nav/sf/arkiv/database/DB.kt:42-63 | The split request has TotalRows rows, at least one per item. |
| ArkivDb.SplitToFitFits | src/no/nav/sf/arkiv/database/DB.kt:42-63 | Every payload of the split request fits the `dokumentasjon` column. |
| ArkivDb.SplitToFitOrigin | src/no/nav/sf/arkiv/database/DB.kt:47-59 | Every payload of the split request equals some request item except perhaps in its text. |
| ArkivDb.SplitToFitTexts | src/no/nav/sf/arkiv/database/DB.kt:42-63 | The texts of the split request concatenate to the texts of the request. |
| ArkivDb.SplitToFitKeepsItems | src/no/nav/sf/arkiv/database/DB.kt:42-63 | Every request item is represented: some payload of the split request equals it except perhaps in its text. |
| ArkivDb.SplitToFitProperties | src/no/nav/sf/arkiv/database/DB.kt:42-63 | The four facts above together. |
| ArkivDb.SplitRequest | src/no/nav/sf/arkiv/database/DB.kt:41-63 | The first `forEach` builds exactly the split request, and every payload it adds fits the column. |
| ArkivDb.AppendChunks | src/no/nav/sf/arkiv/database/DB.kt:46-61 | The inner `forEach` appends one payload per chunk, in chunk order. |
| ArkivDb.ParsedPrefix | src/no/nav/sf/arkiv/database/DB.kt:95-98 | The number of payloads whose dates parse before the first one that does not: all of them parse, and the next one, if any, does not. |
| ArkivDb.ParsedPrefixAll | src/no/nav/sf/arkiv/database/DB.kt:95-98 | Every date parses exactly when that number is the whole split request. |
| ArkivDb.Stored | src/no/nav/sf/arkiv/database/DB.kt:69-104 | How many payloads the insert loop stores before it stops: never more than the payloads or the ids left, and every stored payload's date parses. |
| ArkivDb.StopsAt | src/no/nav/sf/arkiv/database/DB.kt:69-104 | A loop that does not store everything stops at a payload: because of its date exactly when that date does not parse, and otherwise because the sequence has no id left. |
| ArkivDb.InsertedRows | src/no/nav/sf/arkiv/database/DB.kt:69-104 | A call inserts exactly one row per payload of the split request. |
| ArkivDb.InsertedRowsAt | src/no/nav/sf/arkiv/database/DB.kt:69-104 | The k-th row inserted is the k-th payload, with id firstId + k, the k-th clock reading and its parsed date. |
| ArkivDb.ResponsesFor | src/no/nav/sf/arkiv/database/DB.kt:112-127 | One response per row, in row order, each built from its row. |
| ArkivDb.ResponsesDescribeRows | src/no/nav/sf/arkiv/database/DB.kt:112-126 | Each response carries its row's id, time, author, source, document id, date and flag. It shows "konfidentiellt" and "-hidden-" for a confidential row, and the summary and the identifying fields otherwise. |
| ArkivDb.RedactedResponseHidesSecrets | src/no/nav/sf/arkiv/database/DB.kt:119-124 | Two confidential rows that agree on their unredacted columns get the same response, whatever their text, aktoerid, fnr, orgnr and tema. |
| ArkivDb.InsertedRowsFit | src/no/nav/sf/arkiv/model/Tables.kt:20-28 | Every inserted row fits the `dokumentasjon` column, and it fits every column when the request's other fields are within their widths. |
| ArkivDb.InsertPayload | src/no/nav/sf/arkiv/database/DB.kt:70-128 | The inner transaction appends the payload's row with the next id and returns the response for that stored row. When the sequence has no id left, it fails and changes nothing. |
| ArkivDb.InsertAll | src/no/nav/sf/arkiv/database/DB.kt:69-129 | If every date parses and the sequence has an id for every payload, the rows are appended in order, the ids advance by the count, and the responses are those of the rows. Otherwise the call fails with the failure that stopped it, and no row of the call remains. The ids drawn before the failure stay used. |
| ArkivDb.AddArchive | src/no/nav/sf/arkiv/database/DB.kt:31-132 | The whole writer: the split request is inserted and answered as above, with the id sequence advanced by its length. On a date that does not parse or a used-up sequence, no row is kept, the call fails, and the sequence stays advanced by the payloads stored before the failure. |
| ArkivDb.AndWhere | src/no/nav/sf/arkiv/database/DB.kt:134-138 | The new query selects a row exactly when the old one does and the new condition holds. |
| ArkivDb.BuildQuery | src/no/nav/sf/arkiv/database/DB.kt:144-158 | Building the query fails exactly when the id does not parse in range (NumberFormat) or else the date does not parse. Otherwise the query selects exactly the non-confidential rows that match every non-empty filter field. |
| ArkivDb.AndTextFields | src/no/nav/sf/arkiv/database/DB.kt:146-151 | The six text-field steps narrow the query from the first test to the first seven tests of the filter. |
| ArkivDb.AndIfPresent | src/no/nav/sf/arkiv/database/DB.kt:146-151 | One text-field step adds its test when the field is non-empty and nothing otherwise, narrowing the query by exactly that test. |
| ArkivDb.SelectAgrees | src/no/nav/sf/arkiv/database/DB.kt:160 | Running a query equivalent to the filter returns the matching rows in table order. |
| ArkivDb.FilterMatchesMembers | src/no/nav/sf/arkiv/database/DB.kt:144-160 | The rows found are exactly the table's rows that match the filter. |
| ArkivDb.MapToHente | src/no/nav/sf/arkiv/database/DB.kt:162-176 | One `HenteResponse` per found row, in order, each with every column and the full text. |
| ArkivDb.MapToHenteMembers | src/no/nav/sf/arkiv/database/DB.kt:162-176 | The responses shown are exactly those of the found rows. |
| ArkivDb.LookupProperties | src/no/nav/sf/arkiv/database/DB.kt:140-180 | A read whose filter is accepted is sorted by id. It holds exactly the responses of the rows that match, as a permutation of the found rows' responses. |
| ArkivDb.ConfidentialNeverFound | src/no/nav/sf/arkiv/database/DB.kt:158 | No confidential row is ever found, whatever the filter. |
| ArkivDb.EmptyFilterRestrictsNothing | src/no/nav/sf/arkiv/model/Models.kt:71-73 | A filter is empty exactly when it matches every non-confidential row. |
| ArkivDb.RowFoundByItsKeys | src/no/nav/sf/arkiv/database/DB.kt:145-176 | A stored non-confidential row is found by its own document id and by its own id written in decimal, and it is shown with every field as written. |
| ArkivDb.LookupOfOrderedTable | src/no/nav/sf/arkiv/database/DB.kt:179 | On a table whose ids increase, the sort does not change the found rows' order. |
| ArkivDb.FilteredStaysOrdered | src/no/nav/sf/arkiv/database/DB.kt:160 | The rows found in a table whose ids increase have increasing ids. |
| ArkivDb.Hente | src/no/nav/sf/arkiv/database/DB.kt:143-179 | Reading a table gives the lookup of its rows: the failure, or the found rows shown and sorted by id. |
| ArkivDb.HenteArchiveV4 | src/no/nav/sf/arkiv/database/DB.kt:140-180 | `henteArchiveV4` is the lookup of the current table, with the id read as a Long. |
| LegacyDb.CountConfidential | src/database/DB.kt:193-195 | The number of confidential rows is at most the number of rows. |
| LegacyDb.RowsWithIdMembers | src/database/DB.kt:190-191 | A lookup by id gives exactly the rows with the id, confidential ones included. |
| LegacyDb.RowsWithIdAtMostOne | src/database/DB.kt:190-192 | In a table whose ids increase, at most one row has a given id. |
| LegacyDb.LegacyDb.StoreOffset | src/database/DB.kt:35-43 | With no offset row nothing changes. With one row, that row becomes "henvendelse" with the offset's low 32 bits. With several rows the update violates the primary key and nothing changes. |
| LegacyDb.LegacyDb.HenteOffset | src/database/DB.kt:45-53 | The offset stored under "henvendelse", or -1 when there is no such row. |
| LegacyDb.LegacyDb.AddArchive | src/database/DB.kt:55-158 | The legacy writer follows the current writer's rule on ArkivV3: split, insert, answer, or fail and roll back. Its `integer` id sequence is used up after 2^31 - 1, and then the call fails. |
| LegacyDb.LegacyDb.HenteArchive | src/database/DB.kt:215-257 | `henteArchive` is the lookup of ArkivV3 with the id read as an Int. |
| LegacyDb.LegacyDb.HenteId | src/database/DB.kt:184-213 | The answer holds exactly the rows with the id, confidential ones included and shown in full, in table order. The count is the number of confidential rows among them, and with increasing ids there is at most one row. |
| LegacyDb.ArkivV3RowFoundById | src/objects/ArkivDokumentasjon.kt:18 | Every ArkivV3 row has an id within the Int range, so the reader, which reads the id as an Int, finds a non-confidential row by its own id. |
| LegacyDb.RowsWithIdShown | src/database/DB.kt:189-210 | The responses for an id are exactly the unredacted responses of the rows with that id, at most one in a table with increasing ids. |
| LegacyDb.OffsetRoundTrip | src/database/DB.kt:35-53 | An offset in the Int range reads back as stored. |
| LegacyDb.OffsetWrapsAbove32Bits | src/database/DB.kt:40 | Example: the first offset past 2^31 - 1 reads back as -2^31. |
| LegacyDb.EmptyStorageForgets | src/database/DB.kt:48-50 | Example: with an empty OffsetStorage table the offset read is -1. |
| Kafka.AboveMembers | src/kafka/Kafka.kt:84 | The records kept are exactly the batch's records whose offset is above the stored one. |
| Kafka.EveryRecordCounted | src/kafka/Kafka.kt:84-92 | Every kept record either parses or counts as a failure. |
| Kafka.UnprocessedFromRecords | src/kafka/Kafka.kt:84-92 | Every payload archived comes from a kept record that parses to it, with that record's offset. |
| Kafka.NewOffsetAdvances | src/kafka/Kafka.kt:104 | The offset of the last archived payload is above the stored offset. |
| Kafka.KafkaIngest.constructor | src/kafka/Kafka.kt:69-74 | The job starts at the stored offset with every count at zero. |
| Kafka.KafkaIngest.Investigate | src/kafka/Kafka.kt:84-92 | A batch counts its records above the offset as investigated and its parse failures as failed, and yields the parsed ones with their offsets. |
| Kafka.KafkaIngest.ConsumeBatch | src/kafka/Kafka.kt:80-108 | An empty batch finishes and changes nothing. A failure so far gives HasIssues and a batch with nothing new gives IsOk, both without writing or drawing ids. Otherwise Archive's outcome follows, and the offset advances when every payload is stored. |
| Kafka.KafkaIngest.Archive | src/kafka/Kafka.kt:102-107 | The payloads are archived, `stored` grows by their count, and the offset becomes that of the last one and is saved. A date that does not parse, or a used-up id sequence, fails with no row or offset changed, and with the ids drawn before it used. |
| Kafka.KafkaSampler.constructor | src/kafka/Kafka.kt:41-42 | The sampler starts with an empty text and five samples wanted. |
| Kafka.KafkaSampler.ConsumeBatch | src/kafka/Kafka.kt:47-60 | An empty batch finishes; otherwise the first min(left, n) records are sampled, and the job goes on while samples are wanted. |
| Kafka.KafkaSampler.Sample | src/kafka/Kafka.kt:51-57 | One "fnr" line is added for each of the first min(left, n) records, and the countdown drops by that many. |
| Kafka.SampleStep | src/kafka/Kafka.kt:51-57 | Looking at one more record samples it exactly when samples are still wanted. |
| Application.ArkivGateOf | src/no/nav/sf/arkiv/Application.kt:90-99 | An empty batch in development fails on `first()`. Without the bypass or a token the answer is 401, with an invalid date 400, and otherwise the store is called. |
| Application.NoStoreWithoutToken | src/no/nav/sf/arkiv/Application.kt:91-110 | Instance of the gate: outside development, a request without a valid token is refused. |
| Application.OneBadDateRejectsBatch | src/no/nav/sf/arkiv/Application.kt:94-98 | One invalid date rejects the whole authorised batch. |
| Application.CheckDates | src/no/nav/sf/arkiv/Application.kt:94 | The `any` check finds an invalid date exactly when some item's date is invalid. |
| Application.ValidatedDatesStore | src/no/nav/sf/arkiv/Application.kt:94-104 | After the handler's date check, the insert's dates all parse exactly when every item with an empty date would have it parse. |
| Application.FailingDateIsEmpty | src/no/nav/sf/arkiv/Application.kt:94-104 | A date that fails at insert after the check can only be the empty date of some item. |
| Application.StoreArkiv | src/no/nav/sf/arkiv/Application.kt:100-118 | On success the answer is 201 with the responses, `insertedEntries` grows by the number of rows, and the id sequence by the same number. A failure (a date or a used-up sequence) escapes, counts as an issue, and writes no row. It leaves the sequence advanced by the payloads stored before it. |
| Application.PostArkiv | src/no/nav/sf/arkiv/Application.kt:86-119 | The `/arkiv` handler: the counter first, then the gate's answer, where only the empty development batch counts as an issue. A transient outage gives 503 and an issue, and another outage escapes and counts. Gate refusals and outages leave the rows and the id sequence as they were. A working store gives StoreArkiv's outcome. |
| Application.MoreRowsThanItems | src/no/nav/sf/arkiv/Application.kt:104 | The response count is at least the item count, and strictly more when some text is too long. |
| Application.HenteGateOf | src/no/nav/sf/arkiv/Application.kt:123-130 | Refused without the bypass or a token; otherwise an empty filter gives 400, then an invalid date gives 400, else the tables are read. |
| Application.EmptyFilterRefusedFirst | src/no/nav/sf/arkiv/Application.kt:126-129 | An authorised empty filter is refused as empty before its date is checked. |
| Application.PostHente | src/no/nav/sf/arkiv/Application.kt:120-140 | The `/hente` handler: the counter first, the gate's answer, else the ArkivV3 lookup (Int id) followed by the Arkiv lookup (Long id), not re-sorted. A failing connection or id conversion escapes, with no 503 and no issue counted. |
| Application.OnlyIdCanFail | src/no/nav/sf/arkiv/Application.kt:128-131 | After the date check only the id conversion can make a read fail. |
| Application.CombinedAnswerNotSorted | src/no/nav/sf/arkiv/Application.kt:131 | Example: each part of the answer is sorted by id, but the concatenation can be out of order: rows 5 and 3 come out as 5, 3. |
| Application.DelayEndsAtShutdownMark | src/no/nav/sf/arkiv/Application.kt:169-179 | The wait ends on a 02:00 mark. It is positive before today's mark, and positive and at most three days within the three days after it. |
| MainApplication.ApplicationState.constructor | src/main/no/nav/sf/arkiv/Application.kt:127-130 | A new state is alive and ready. |
| MainApplication.ApplicationState.OnApplicationStopped | src/main/no/nav/sf/arkiv/Application.kt:78-84 | On ApplicationStopped both flags become false. |
| MainApplication.ApplicationState.IsAlive | src/main/no/nav/sf/arkiv/Routing.kt:26-32 | The status is 200 while alive, else 500. |
| MainApplication.ApplicationState.IsReady | src/main/no/nav/sf/arkiv/Routing.kt:33-39 | The status is 200 while ready, else 500. |
| MainApplication.StartAndStop | src/main/no/nav/sf/arkiv/Application.kt:78-84 | Example: a started service answers 200, and a stopped one answers 500. |
| MainApplication.OneDayDelayPositive | src/main/no/nav/sf/arkiv/Application.kt:111-116 | Within a day after the mark, the one-day wait is positive, at most a day, and ends on the next mark. |
| MainApplication.BeforeMarkSameDelay | src/main/no/nav/sf/arkiv/Application.kt:111-112 | Instance: before the mark both services wait exactly until it. |
| PostgresDatabase.RoleNames | src/no/nav/sf/arkiv/database/PostgresDatabase.kt:23-24 | Both roles start with the chosen database name (the target one when `target` is set) and end in "-admin" and "-user", so they differ. |
| PostgresDatabase.AdminRoleNamesDatabase | src/no/nav/sf/arkiv/database/PostgresDatabase.kt:23-24 | Equal admin roles come from the same database name and go with the same user role. |
| PostgresDatabase.HasCauseOfType | src/no/nav/sf/arkiv/database/PostgresDatabase.kt:113-122 | True exactly when some element of the cause chain, starting with the exception itself, is an instance of the class. |
| PostgresDatabase.DataSource | src/no/nav/sf/arkiv/database/PostgresDatabase.kt:31-72 | At most five calls, every one before the last a caught Exception caused by a socket timeout. The first success is returned. A Throwable that is not an Exception, or an Exception without a timeout cause, leaves at once. A timeout is rethrown only on the fifth call, and the waits double from 1000 ms. |
| PostgresDatabase.RetrySchedule | src/no/nav/sf/arkiv/database/PostgresDatabase.kt:53-58 | Example: the waits are 1000, 2000, 4000 and 8000 ms. |

## Left out

**Environment and process machinery**
- Logging, the `/tmp` debug files, `println` and Prometheus export are left out: they are output only.
- The `latestId` gauge is left out. The request, insert and issue counters are fields of `Metrics`.
- Date parsing and printing are abstract. The model does not know which strings Joda accepts or how it prints.
- The clock is a parameter.
- JSON encoding and decoding (gson, ktor) are not modelled: the handlers receive decoded requests and return decoded bodies.
- Token validation is a boolean input. `TokenValidation.kt` and the test doubles are not part of this model.

**Database**
- Exposed, Hikari and Vault are replaced by the in-memory tables:
  - the JDBC connection is left out;
  - a SQL result is read in table order;
  - a `Connection` input of each handler decides whether the store is reachable.
- The database's rejection of values wider than a column is left out. `ArkivDb.InsertedRowsFit` states when rows fit instead.
- The dead update branch of both writers is left out, because `update` is always false.
- `entryIdOfDokumentasjonId`, `sizeEstimate`, `listTables`, `logTableState`, `create` and `grant` are left out: they are raw SQL, diagnostics or schema set-up.
- The table and schema duplicates (`src/model/Tables.kt`, `src/objects/ArkivDokumentasjon.kt`) are left out. They repeat the `Tables` layout.
- The configuration-only files (the other `PostgresDatabase.kt` files, `Environment.kt`, `EmbeddedPostgresDatabase.kt`) are left out.

**Kafka and the ktor service**
- `AKafkaConsumer`, polling, `Thread.sleep`, `GlobalScope` and `System.exit` are left out. Each Kafka callback is one method call, and `toHenvendelseArkivModel` is a parameter.
- The ktor routes of the older service are left out, except the pod endpoints. In them a 400 response falls through to the store call, and what follows depends on ktor.

**Limits of the model**
- Cause chains are finite datatypes. A cyclic cause chain, which the JVM allows, is not represented.
- `Decimal.ParseInteger` accepts the ASCII digits only. The JVM also accepts other Unicode decimal digits.
- `Application.DelayEndsAtShutdownMark` takes today's 02:00 mark as an input. Time zones and daylight-saving shifts in computing it are not modelled.
- Exceptions are values of `Failure`. An exception that escapes a handler is the `Propagate` outcome, and the server's reaction to it is not modelled.
- ArkivDb.AddArchive, ArkivDb.InsertedRows, ArkivDb.InsertedRowsAt: one call runs alone, and so does every handler call and Kafka callback built on them. Concurrent requests drawing interleaved ids from the shared sequence are not modelled, so the consecutive ids of one call are a property of a call in isolation.
- Text fields other than `dokumentasjon` are Dafny strings of Unicode scalar values. Only their equality and their column widths matter, and PostgreSQL counts `varchar` widths in characters.
- A chunk boundary can fall inside a surrogate pair. What the JDBC driver and PostgreSQL then store for the lone surrogate is not modelled; the row keeps the code units.
- `Tables.FitsColumns` bounds `dokumentasjon` in code units. For well-formed text that number is never below its count of characters, which is what the `varchar` column limits, so the bound is sufficient there.
- The older service's `hasValidDokumentDato` is the same code as the current one, and the model reuses the `Models` check for it.
- The response for an insert is a function of the stored row. This is equivalent to the source, because every value it shows is the value just stored.

**Where the code is followed over its documentation**
- The `/hente` answer is the two sorted parts concatenated, not one sorted list.
- `issues` is incremented for the transient connection exception too.
- An empty `dokumentdato` passes validation but is parsed again at insert. If that parse fails, the call fails and the writer's transaction rolls back.
- `henteArchive` of the current service is not part of this model. The `/hente` handler's legacy half is modelled with the ArkivV3 reader of `src/database/DB.kt`, which reads the id as an Int.
