# GPD reporting analysis — a verified model of its core

This project is a Dafny model of the core of the pagoPA GPD reporting-analysis
functions:

- **FlowsService** (`flows_service.dfy`): listing an organization's reporting
  flows (FDR) from FDR3, with a day filter applied on the client side; the
  storage-table query for an organization's flows on one day; the key of a
  flow's XML document in blob storage; and reassembling the legacy FDR1 flow
  document from its decompressed text.
- **GetFlowList** (`get_flow_list.dfy`): the HTTP function that turns FDR3
  records into `Flow` values dated by local wall-clock time. It sorts them
  latest first, stably, and answers 200 or 400.
- **GpdReportingSync** (`gpd_reporting_sync.dfy`): the event-hub function. It
  relays each event of a batch to GPD as a "report this transfer" POST. The
  class keeps a log of the relay calls it has made.

Supporting modules model the Java library behaviour the core relies on:

- `text.dfy`: the `String.compareTo` order, fixed-width decimal digits and
  `String.trim`.
- `calendar.dfy`: proleptic Gregorian dates, `OffsetDateTime` values and their
  instants, `plusMonths`, the strict `yyyy-MM-dd` parse, and the two
  `DateTimeFormatter` prints used by the code.
- `model.dfy`: the records `Fdr3Data`, `Fdr3Metadata`, `Fdr3Response`, `Flow`,
  `FlowEntity` and `ReportedIUVEventModel`, and the exceptions as an `Error`
  type.
- `results.dfy`: `Option` and `Result`.
- `seqs.dfy`: the in-order subsequence relation.

Network and storage replies are parameters. The FDR3 and FDR1 endpoints are
functions from request URL to reply. The table's rows, the blob container (a
map from key to content) and GPD's POST outcome are inputs too. The same goes
for the clock (`now`), `OffsetDateTime.parse` (a `TimestampParser`: a partial
function whose results are well-formed date-times), the event JSON reader, the
Base64 decoder, gzip with UTF-8 decoding, and the row-to-`Flow` converter.
Thrown exceptions become `Failure` values.

The code and a design description of the service disagree in a few places.
The model follows the code:

- The description says a malformed relay event is dropped and the batch goes on. In
  `GpdReportingSync.run` the JSON read throws, which ends the batch after the
  calls already made.
- The description says a missing transfer id defaults to `1`. The code prints it with
  `String.valueOf`, so the path holds `null`.
- The description says the FDR1 text loses trailing whitespace. `String.trim` strips
  characters up to U+0020 at both ends.
- `GetFlowList.run` reads `d.getFlowDate()`, which `Fdr3Data` does not declare.
  The model reads the record's `published` timestamp, the only date-time field
  the record has.

## Model

| member | source | states |
|---|---|---|
| FlowsService.ResolveBounds | src/main/java/it/gov/pagopa/reporting/service/FlowsService.java:149-158 | Without a day the bounds always exist and there is no upper bound. With a day they exist exactly when the day parses; otherwise the error is `InvalidDate` of that text, and a parsed day always gets an upper bound. |
| FlowsService.DayBounds | src/main/java/it/gov/pagopa/reporting/service/FlowsService.java:149-158 | For a valid day D, FDR3 is asked from `D+"T00:00:00Z"`, which is the ISO print of D at midnight UTC. The upper bound is D at 23:59:59 UTC, and midnight is strictly before it. |
| FlowsService.FetchFdr3List | src/main/java/it/gov/pagopa/reporting/service/FlowsService.java:145-203 | A day that does not parse fails with `InvalidDate` whatever FDR3 would answer (no request is needed). A successful call with a day has `count` equal to the number of records returned. |
| FlowsService.NoDayPassesPageThrough | src/main/java/it/gov/pagopa/reporting/service/FlowsService.java:154-202 | Without a day, FDR3 is asked from `now` minus the configured months. A non-200 status fails and an unreadable body fails. Otherwise the parsed page comes back unchanged, so `count` is not recomputed. |
| FlowsService.ListFromReply | src/main/java/it/gov/pagopa/reporting/service/FlowsService.java:177-202 | Any status other than 200 fails with that status. A 200 reply whose body cannot be read fails with `MalformedBody`. A page that was cut has `count` equal to its number of records. |
| FlowsService.DayFilteredPage | src/main/java/it/gov/pagopa/reporting/service/FlowsService.java:145-203 | For a valid day D, the URL asks for `page=1` with the configured size from `D+"T00:00:00Z"`. A non-200 status fails with that status, and a 200 reply whose body cannot be read fails with `MalformedBody`. With a readable 200 page, the call succeeds exactly when every `published` parses. The result then keeps FDR3's metadata, has `count` equal to its length, and is an in-order selection of the page. It holds each record published before the midnight that ends D (UTC) as often as the page does, and no other record. |
| FlowsService.DayCut | src/main/java/it/gov/pagopa/reporting/service/FlowsService.java:183-200 | The same facts about cutting any reply at D 23:59:59 UTC, including the `MalformedBody` failure of a 200 reply whose body cannot be read. |
| FlowsService.KeepPublishedBefore | src/main/java/it/gov/pagopa/reporting/service/FlowsService.java:188-193 | The stream filter succeeds exactly when no record's timestamp fails to parse. On failure the error names the first record, in stream order, whose timestamp does not parse. |
| FlowsService.FirstUnparsed | src/main/java/it/gov/pagopa/reporting/service/FlowsService.java:188-193 | The position of the first record whose timestamp does not parse. Every record before it parses, and the record at that position does not. |
| FlowsService.AllParseIffNoFailure | src/main/java/it/gov/pagopa/reporting/service/FlowsService.java:188-193 | Every timestamp parses exactly when the first unparsed position is the end of the page. |
| FlowsService.KeptRecords | src/main/java/it/gov/pagopa/reporting/service/FlowsService.java:188-193 | The kept records are an in-order subsequence of the page. Each record published before the limit appears as often as in the page; every other record appears zero times. |
| FlowsService.CutIsNextMidnight | src/main/java/it/gov/pagopa/reporting/service/FlowsService.java:150-152 | Being before `D 23:59:59Z + 1s` is the same as being before the midnight that ends D, nanoseconds included. |
| FlowsService.LastSecondKept | src/main/java/it/gov/pagopa/reporting/service/FlowsService.java:191 | A record published at D 23:59:59 UTC is kept, whatever its fraction of a second (e.g. `23:59:59.5Z`). |
| FlowsService.NextMidnightCut | src/main/java/it/gov/pagopa/reporting/service/FlowsService.java:191 | A record published at 00:00:00 UTC of the day after D is cut. |
| FlowsService.EarlierThanDayKept | src/main/java/it/gov/pagopa/reporting/service/FlowsService.java:188-193 | A record published before D begins is still kept; no lower bound is applied on the client. |
| FlowsService.OffsetRecordKept | src/main/java/it/gov/pagopa/reporting/service/FlowsService.java:188-193 | For day D, a record published at 00:30 of the next day with offset +02:00 (22:30 UTC on D) is kept. The cut compares instants, although `GetFlowList` prints that record with the next day's date. |
| FlowsService.TableFilterWithoutDay | src/main/java/it/gov/pagopa/reporting/service/FlowsService.java:79-91 | Without a day, the table filter is exactly `PartitionKey == organizationId`. |
| FlowsService.DayRangeExact | src/main/java/it/gov/pagopa/reporting/service/FlowsService.java:80-90 | For a ten-character day and a stored date with an hour from 00 to 23, `D+"T0" <= FlowDate <= D+"T3"` (string order) holds exactly when the stored date starts with D. |
| FlowsService.AfternoonRowFound | src/main/java/it/gov/pagopa/reporting/service/FlowsService.java:86-90 | `2024-05-01T14:22:00` is within the range for `2024-05-01`. |
| FlowsService.NextDayRowNotFound | src/main/java/it/gov/pagopa/reporting/service/FlowsService.java:86-90 | `2024-05-02T00:00:01` is outside the range for `2024-05-01`. |
| FlowsService.QueryTable | src/main/java/it/gov/pagopa/reporting/service/FlowsService.java:79-95 | The query result is an in-order subsequence of the table's rows. It holds every row that satisfies the filter as often as the table does, and no other row. |
| FlowsService.DayQueryExact | src/main/java/it/gov/pagopa/reporting/service/FlowsService.java:79-95 | With a valid day, on rows whose dates carry an hour from 00 to 23, a row is found exactly when it belongs to the organization and its date starts with the day. |
| FlowsService.GetByOrganization | src/main/java/it/gov/pagopa/reporting/service/FlowsService.java:93-104 | The flows are the converted query rows, one per row, in the query's order. |
| FlowsService.BlobKeyRoundTrip | src/main/java/it/gov/pagopa/reporting/service/FlowsService.java:119-122 | If the date and the organization hold no `#`, the key `flowDate##organizationId##flowId.xml` splits back into exactly those three parts. |
| FlowsService.GetByFlow | src/main/java/it/gov/pagopa/reporting/service/FlowsService.java:107-128 | The download succeeds exactly when a blob is stored under the flow's key, and returns that blob. Otherwise it fails naming the key. |
| FlowsService.ReadLine | src/main/java/it/gov/pagopa/reporting/service/FlowsService.java:242 | The line read from non-empty text is the text before its first `\n` or `\r`, and holds no `\n` or `\r`. It stops at a line end when there is one. When the line runs to the end of the text, nothing remains; otherwise what remains is strictly shorter than the text. |
| FlowsService.ReassembleFlow | src/main/java/it/gov/pagopa/reporting/service/FlowsService.java:240-246 | The read loop's result is the trimmed text made of every line followed by `\n`. It starts and ends with a character above U+0020 (or is empty). |
| FlowsService.ReassembledIsNormalized | src/main/java/it/gov/pagopa/reporting/service/FlowsService.java:240-244 | The read loop's text is the decompressed text with each `\r\n` and each lone `\r` turned into one `\n` (`NormalizeEol`), followed by a final `\n` when it lacks one. |
| FlowsService.CrLfIsOneLineBreak | src/main/java/it/gov/pagopa/reporting/service/FlowsService.java:240-244 | `a\r\nb` is reassembled as `a\nb\n`: `\r\n` ends one line, not two. |
| FlowsService.ReassembledHasNoCarriageReturn | src/main/java/it/gov/pagopa/reporting/service/FlowsService.java:240-244 | Reassembled text holds no `\r`. |
| FlowsService.ReassembledWithoutCarriageReturn | src/main/java/it/gov/pagopa/reporting/service/FlowsService.java:240-244 | Text without `\r` is reassembled unchanged, except that a final `\n` is added when it is missing. |
| FlowsService.Fdr1TextRoundTrip | src/main/java/it/gov/pagopa/reporting/service/FlowsService.java:240-246 | A decompressed document without `\r` and without blanks at either end comes out exactly as it went in. |
| FlowsService.FetchFdr1Flow | src/main/java/it/gov/pagopa/reporting/service/FlowsService.java:205-247 | The request goes to FDR1's internal flow URL. A non-200 status, an unreadable body, bad Base64 and bad gzip each fail with their own error, in that order. Otherwise the result is the trimmed reassembly of the decompressed text. |
| GetFlowList.ToFlows | src/main/java/it/gov/pagopa/reporting/GetFlowList.java:57-62 | The mapping succeeds exactly when every `published` parses; otherwise it fails at the first that does not. On success there is one flow per record, in order. Each flow's id is the record's `fdr` and its date is the `yyyy-MM-dd'T'HH:mm:ss` print of the record's own timestamp. |
| GetFlowList.SortDescending | src/main/java/it/gov/pagopa/reporting/GetFlowList.java:63 | The sorted list is a permutation of its input (same multiset). |
| GetFlowList.Insert | src/main/java/it/gov/pagopa/reporting/GetFlowList.java:63 | Inserting adds exactly the one flow to the multiset. |
| GetFlowList.InsertDescending | src/main/java/it/gov/pagopa/reporting/GetFlowList.java:63 | Inserting into a list sorted latest first keeps it sorted latest first. |
| GetFlowList.SortIsDescending | src/main/java/it/gov/pagopa/reporting/GetFlowList.java:63 | In the sorted list, every flow's date is, as a string, no earlier than any later flow's date. |
| GetFlowList.InsertStable | src/main/java/it/gov/pagopa/reporting/GetFlowList.java:63 | The inserted flow goes ahead of every flow with the same date. |
| GetFlowList.SortStable | src/main/java/it/gov/pagopa/reporting/GetFlowList.java:63 | For every date, the flows with that date appear in the sorted list in their input order (the sort is stable). |
| GetFlowList.WallClockOrder | src/main/java/it/gov/pagopa/reporting/GetFlowList.java:56-63 | For years 1 to 9999, comparing two printed dates as strings is comparing the two local wall-clock times, to the second. |
| GetFlowList.Run | src/main/java/it/gov/pagopa/reporting/GetFlowList.java:53-77 | The answer is JSON in every case. Its status is 200 or 400, and it has a body exactly when the status is 200. |
| GetFlowList.RunOutcome | src/main/java/it/gov/pagopa/reporting/GetFlowList.java:53-77 | The status is 200 exactly when the list was fetched (with the query's `flowDate`, or none) and every timestamp parses; otherwise some record's timestamp failed to parse. The 200 body has one flow per record and is a permutation of the mapped flows. It is sorted latest first, and flows with the same date keep FDR3's order. |
| Calendar.ParseDay | src/main/java/it/gov/pagopa/reporting/service/FlowsService.java:151 | An accepted day is a real calendar date with a year from 0 to 9999. |
| Calendar.ParseFormattedDay | src/main/java/it/gov/pagopa/reporting/service/FlowsService.java:151 | Every date with a year from 0 to 9999, printed `yyyy-MM-dd`, is accepted and read back as the same date. |
| Calendar.FormatParsedDay | src/main/java/it/gov/pagopa/reporting/service/FlowsService.java:151-155 | Every accepted day text is the ISO print of the date it denotes. |
| Calendar.MidnightText | src/main/java/it/gov/pagopa/reporting/service/FlowsService.java:155-158 | Midnight UTC of a day prints, in the ISO offset format, as the day followed by `T00:00:00Z`. |
| Calendar.NextDay | src/main/java/it/gov/pagopa/reporting/service/FlowsService.java:191 | The day after a valid date is a valid date. |
| Calendar.EpochDayOfNextDay | src/main/java/it/gov/pagopa/reporting/service/FlowsService.java:191 | Consecutive days have consecutive day numbers, across month and year ends and in leap years. |
| Calendar.YearLength | src/main/java/it/gov/pagopa/reporting/service/FlowsService.java:191 | A year has 366 days exactly when it is a leap year, and 365 otherwise. |
| Calendar.EpochStartsAt1970 | src/main/java/it/gov/pagopa/reporting/service/FlowsService.java:190-191 | 1970-01-01 is day 0. |
| Calendar.InstantOf | src/main/java/it/gov/pagopa/reporting/service/FlowsService.java:190-191 | An instant keeps its date-time's nanoseconds, and a UTC date-time's instant falls within its own day. |
| Calendar.OffsetShiftsInstant | src/main/java/it/gov/pagopa/reporting/service/FlowsService.java:190-191 | A date-time at offset `+o` seconds is the instant `o` seconds earlier than the same wall-clock time in UTC. |
| Calendar.PlusMonths | src/main/java/it/gov/pagopa/reporting/service/FlowsService.java:156-157 | The result is valid and lies n months later. Its day of month is the original day, or the last day of the target month when that is shorter. Time and offset are unchanged. |
| Calendar.MinusMonths | src/main/java/it/gov/pagopa/reporting/service/FlowsService.java:156-157 | Going back n months gives a valid date-time. |
| Calendar.PlusMonthsInverse | src/main/java/it/gov/pagopa/reporting/service/FlowsService.java:156-157 | For days up to the 28th, adding n months and then removing them restores the date-time. |
| Calendar.FormatLocalIgnoresOffset | src/main/java/it/gov/pagopa/reporting/GetFlowList.java:56-60 | The `yyyy-MM-dd'T'HH:mm:ss` print ignores the fraction of a second and the offset; nothing is converted to UTC. |
| Calendar.FormatLocalOrder | src/main/java/it/gov/pagopa/reporting/GetFlowList.java:56-63 | For years 1 to 9999, comparing two local prints as strings is comparing the local wall-clock times. |
| Calendar.LocalTextOrder | src/main/java/it/gov/pagopa/reporting/GetFlowList.java:56-63 | The same, field by field, from month to second. |
| Text.LeReflexive | src/main/java/it/gov/pagopa/reporting/GetFlowList.java:63 | `compareTo` order: every string is at most itself. |
| Text.LeTotal | src/main/java/it/gov/pagopa/reporting/GetFlowList.java:63 | Any two strings are ordered one way or the other. |
| Text.LeAntisymmetric | src/main/java/it/gov/pagopa/reporting/GetFlowList.java:63 | Strings ordered both ways are equal. |
| Text.LeTransitive | src/main/java/it/gov/pagopa/reporting/GetFlowList.java:63 | The order is transitive. |
| Text.LeAfterCommonPrefix | src/main/java/it/gov/pagopa/reporting/service/FlowsService.java:87-88 | A shared prefix does not change the comparison. |
| Text.LeFirstDifference | src/main/java/it/gov/pagopa/reporting/service/FlowsService.java:87-88 | At the first differing position, the smaller character decides, strictly. |
| Text.LeEqualLengthPrefix | src/main/java/it/gov/pagopa/reporting/GetFlowList.java:63 | Two equal-length strings, each followed by more text: the comparison is decided by the two strings, and only by what follows when they are equal. |
| Text.LePrefix | src/main/java/it/gov/pagopa/reporting/service/FlowsService.java:87-88 | A prefix sorts no later than the string it starts. |
| Text.FixedValue | src/main/java/it/gov/pagopa/reporting/GetFlowList.java:56 | Fixed-width digits of a number that fits read back as that number. |
| Text.FixedOfValue | src/main/java/it/gov/pagopa/reporting/service/FlowsService.java:151 | A digit string is the fixed-width print of its value. |
| Text.FixedInjective | src/main/java/it/gov/pagopa/reporting/GetFlowList.java:56 | Numbers that fit have the same fixed-width print only when they are equal. |
| Text.FixedOrder | src/main/java/it/gov/pagopa/reporting/GetFlowList.java:56-63 | Fixed-width prints compare as strings exactly as the numbers compare. |
| Text.Trim | src/main/java/it/gov/pagopa/reporting/service/FlowsService.java:246 | The result has no character up to U+0020 at either end. It is what remains of the input after cutting a prefix and a suffix made only of such characters. |
| Text.TrimUnchanged | src/main/java/it/gov/pagopa/reporting/service/FlowsService.java:246 | Text without blanks at either end is left unchanged. |
| Text.TrimIdempotent | src/main/java/it/gov/pagopa/reporting/service/FlowsService.java:246 | Trimming twice is trimming once. |
| Seqs.SubsequenceLength | src/main/java/it/gov/pagopa/reporting/service/FlowsService.java:188-197 | A subsequence is no longer than the sequence, so filtering never grows the page. |
| ReportingSync.TransferIdText | src/main/java/it/gov/pagopa/reporting/GpdReportingSync.java:48 | A present transfer id never prints as `null`. It prints as its decimal digits, with a `-` when negative, and reads back as the same number. |
| ReportingSync.NullTransferRelayed | src/main/java/it/gov/pagopa/reporting/GpdReportingSync.java:48-55 | An event without a transfer id is relayed to `.../transfers/null/report`; no default id is used. |
| ReportingSync.ParsedPrefix | src/main/java/it/gov/pagopa/reporting/GpdReportingSync.java:46-48 | The events relayed are the items read before the first item that does not parse: each one is its item's reading. The item right after them, if any, does not parse. |
| ReportingSync.ParsedPrefixUnique | src/main/java/it/gov/pagopa/reporting/GpdReportingSync.java:46-48 | That description determines the relayed events. |
| ReportingSync.ParsedPrefixAtFailure | src/main/java/it/gov/pagopa/reporting/GpdReportingSync.java:46-48 | When item i is the first that does not parse, nothing after it is relayed. |
| ReportingSync.Relayed | src/main/java/it/gov/pagopa/reporting/GpdReportingSync.java:46-55 | One call per event, in order, each to the event's report path. |
| ReportingSync.EmptyBatchRelaysNothing | src/main/java/it/gov/pagopa/reporting/GpdReportingSync.java:46 | An empty batch makes no call. |
| ReportingSync.EveryEventRelayed | src/main/java/it/gov/pagopa/reporting/GpdReportingSync.java:46-49 | The whole batch is relayed, one call per item, exactly when every item parses. |
| ReportingSync.GpdReportingSync.constructor | src/main/java/it/gov/pagopa/reporting/GpdReportingSync.java:21 | The function starts with the configured GPD base path and an empty log. |
| ReportingSync.GpdReportingSync.GpdReport | src/main/java/it/gov/pagopa/reporting/GpdReportingSync.java:53-62 | Exactly one call is appended to the log, to `base/organizations/{org}/paymentoptions/{iuv}/transfers/{id}/report`, whether or not it completes. |
| ReportingSync.GpdReportingSync.Run | src/main/java/it/gov/pagopa/reporting/GpdReportingSync.java:30-51 | The batch succeeds exactly when every item parses. Otherwise it fails naming the first item that does not. The log gains exactly the calls for the events read before that point, in arrival order. |

## Left out

- HTTP transport, the Azure table and blob clients and `AzuriteStorageUtil.createTable`: their replies are parameters. The subscription-key headers and the `accept` header are not modelled.
- The OData text built by `TableQuery.generateFilterCondition` and `combineFilters`: only the filter's meaning (`TableFilter`) is modelled.
- Jackson (`readValue`, `readTree(...).get("xmlRendicontazione")`), ModelMapper and `FlowConverter`: they are parameters or an unreadable-body error.
- Base64 decoding and gzip decompression with UTF-8 decoding: opaque partial functions. The blob's bytes-to-text step in `getByFlow` is folded into a stored string.
- `OffsetDateTime.parse` of FDR3's `published` values: a parameter. Its results are assumed valid date-times with an offset of at most 18 hours.
- Calendar.ParseDay: accepts unsigned four-digit years only. Java's ISO parser also accepts a year with a `-` sign (such as `-0001-05-01`), and a year of more than four digits with a `+` or `-` sign.
- Calendar.PlusMonths: does not bound years to Java's range of plus or minus 999,999,999, so the `DateTimeException` on overflow is not modelled.
- GetFlowList.WallClockOrder and Calendar.FormatLocalOrder: stated for years 1 to 9999 only. Years needing five digits or more print with a `+`, and years before 1 print as the year of era.
- Text.Le: compares characters by code point. Java compares UTF-16 code units, and the two orders differ only for characters outside the Basic Multilingual Plane.
- `Fdr3Data` fields that may be null in Java are modelled as present strings. `fdrFlowDate` and the URL are never null in the code.
- Integer widths: `count` and list sizes are Java `int`, and `idTransfer` is a `Long`. The model uses unbounded integers.
- FDR3 paging: the code reads only the first page, and so does the model.
- Logging, `System.getenv` and the Azure Functions bindings: configuration is the `Config` value and the `gpdBasePath` field. Log lines are not modelled.
- FlowsService.FetchFdr3List and FlowsService.FetchFdr1Flow: exceptions before a reply exists are not modelled. `URI.create` throws on an `organizationId` or `fdr` with a character not allowed in a URI, such as a space. `httpClient.send` throws on a transport failure or a timeout. The endpoint parameters always return a reply, so for such inputs the model can succeed where the Java code throws.
- FlowsService.FetchFdr3List and GetFlowList.Run: a 200 reply whose JSON lacks `data` leaves `getData()` null in Java. That throws a `NullPointerException` in the day filter, or in `GetFlowList.run` without a day, which answers 400. The model's `Fdr3Response.data` is always a sequence, so a reply without `data` is read as an empty page or as unreadable.
