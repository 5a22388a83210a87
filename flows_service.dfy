/** `FlowsService`: the FDR3 flow list with its client-side day cut, the
    storage-table query for one organization and day, the blob key of a flow
    document, and the FDR1 flow document reassembled from its decompressed
    text. Network and storage replies are parameters. */
module FlowsService {
  import opened Results
  import opened Text
  import opened Calendar
  import opened Seqs
  import opened Model

  /** The environment configuration the service reads at construction. */
  datatype Config = Config(
    fdr3BaseUrl: string,          // FDR3_BASE_URL
    fdr1BaseUrl: string,          // FDR1_BASE_URL
    listElementsForPage: string,  // FDR3_LIST_ELEMENTS_FOR_PAGE
    flowListDepth: int            // FDR3_FLOW_LIST_DEPTH, in months
  )

  /** `OffsetDateTime.parse`: `None` where it throws; what it returns is a
      well-formed date-time. */
  type TimestampParser = f: string -> Option<DateTime> | forall s :: f(s).Some? ==> ValidDateTime(f(s).value)
    witness (s: string) => None

  // ===========================================================================
  // fetchFdr3List
  // ===========================================================================

  /** What `fetchFdr3List` derives from the optional day: the `flowDate` text
      sent to FDR3 (a lower bound) and the upper bound it applies itself. */
  datatype ListBounds = ListBounds(lowerText: string, upper: Option<Instant>)

  /** The bounds for an optional `yyyy-MM-dd` day. The day is parsed (as part of
      the upper bound) before anything else, so a bad day fails first. */
  function ResolveBounds(flowDate: Option<string>, now: DateTime, depth: int): (r: Result<ListBounds, Error>)
    requires ValidDateTime(now)
    ensures flowDate.None? ==> r.Success? && r.value.upper.None?
    ensures flowDate.Some? ==> (r.Success? <==> ParseDay(flowDate.value).Some?)
    ensures flowDate.Some? && r.Failure? ==> r.error == InvalidDate(flowDate.value)
    ensures flowDate.Some? && r.Success? ==> r.value.upper.Some?
  {
    match flowDate
    case None => Success(ListBounds(FormatIsoOffset(MinusMonths(now, depth)), None))
    case Some(text) =>
      match ParseDay(text)
      case None => Failure(InvalidDate(text))
      case Some(day) => Success(ListBounds(text + "T00:00:00Z", Some(InstantOf(DateTime(day, 23, 59, 59, 0, 0)))))
  }

  /** The FDR3 list URL: always the first page, of the configured size. */
  function Fdr3ListUrl(cfg: Config, organizationId: string, lowerText: string): string {
    cfg.fdr3BaseUrl + "/organizations/" + organizationId + "/fdrs?page=1&size=" + cfg.listElementsForPage
      + "&flowDate=" + lowerText
  }

  /** The record is published strictly before `limit` (false when its
      timestamp does not parse). */
  predicate PublishedBefore(d: Fdr3Data, limit: Instant, parse: TimestampParser) {
    parse(d.published).Some? && IsBefore(InstantOf(parse(d.published).value), limit)
  }

  predicate AllPublishedParse(data: seq<Fdr3Data>, parse: TimestampParser) {
    forall i :: 0 <= i < |data| ==> parse(data[i].published).Some?
  }

  /** The position of the first record whose timestamp does not parse, or the
      length of the page when every one does. */
  function FirstUnparsed(data: seq<Fdr3Data>, parse: TimestampParser): (i: nat)
    ensures i <= |data|
    ensures forall k :: 0 <= k < i ==> parse(data[k].published).Some?
    ensures i < |data| ==> parse(data[i].published).None?
  {
    if data == [] || parse(data[0].published).None? then 0
    else
      var i := FirstUnparsed(data[1..], parse);
      assert forall k :: 1 <= k < i + 1 ==> data[k] == data[1..][k - 1];
      i + 1
  }

  /** The stream `filter(... isBefore(limit))`: fails on the first record whose
      timestamp does not parse, and otherwise keeps, in order, exactly the
      records published before `limit` (see `KeptRecords`). */
  function KeepPublishedBefore(data: seq<Fdr3Data>, limit: Instant, parse: TimestampParser): (r: Result<seq<Fdr3Data>, Error>)
    ensures r.Success? <==> FirstUnparsed(data, parse) == |data|
    ensures r.Failure? ==> r.error == MalformedTimestamp(data[FirstUnparsed(data, parse)].published)
  {
    if data == [] then Success([])
    else
      match parse(data[0].published)
      case None => Failure(MalformedTimestamp(data[0].published))
      case Some(t) =>
        match KeepPublishedBefore(data[1..], limit, parse)
        case Failure(e) => Failure(e)
        case Success(rest) => Success(if IsBefore(InstantOf(t), limit) then [data[0]] + rest else rest)
  }

  /** Every timestamp parses exactly when no first failure exists. */
  lemma AllParseIffNoFailure(data: seq<Fdr3Data>, parse: TimestampParser)
    ensures AllPublishedParse(data, parse) <==> FirstUnparsed(data, parse) == |data|
  {
  }

  /** What the cut keeps: an in-order selection of the records holding each
      record published before `limit` as often as the page does, and no other. */
  lemma {:induction false} KeptRecords(data: seq<Fdr3Data>, limit: Instant, parse: TimestampParser)
    requires KeepPublishedBefore(data, limit, parse).Success?
    ensures var kept := KeepPublishedBefore(data, limit, parse).value;
            && IsSubsequence(kept, data)
            && forall d :: multiset(kept)[d] == if PublishedBefore(d, limit, parse) then multiset(data)[d] else 0
    decreases |data|
  {
    if data != [] {
      var d := data[0];
      assert data == [d] + data[1..];
      KeptRecords(data[1..], limit, parse);
    }
  }

  /** What `fetchFdr3List` does with FDR3's reply: a non-200 status fails; with
      no upper bound the parsed page is returned as it is; otherwise the page
      keeps the records published before `upper + 1s`, its count is the number
      kept and its metadata is FDR3's. */
  function ListFromReply(reply: Reply<Fdr3Response>, upper: Option<Instant>, parse: TimestampParser): (r: Result<Fdr3Response, Error>)
    ensures reply.status != HttpOk ==> r == Failure(UpstreamStatus(reply.status))
    ensures reply.status == HttpOk && reply.body.None? ==> r == Failure(MalformedBody)
    ensures r.Success? && upper.Some? ==> r.value.count == |r.value.data|
  {
    if reply.status != HttpOk then Failure(UpstreamStatus(reply.status))
    else
      match reply.body
      case None => Failure(MalformedBody)
      case Some(full) =>
        match upper
        case None => Success(full)
        case Some(u) =>
          match KeepPublishedBefore(full.data, PlusSeconds(u, 1), parse)
          case Failure(e) => Failure(e)
          case Success(kept) => Success(Fdr3Response(full.metadata, |kept|, kept))
  }

  /** `fetchFdr3List(organizationId, flowDate)`. `fdr3` is FDR3's reply to a
      request URL; it is consulted only when the bounds could be built. */
  function FetchFdr3List(cfg: Config, organizationId: string, flowDate: Option<string>, now: DateTime,
                         fdr3: string -> Reply<Fdr3Response>, parse: TimestampParser): (r: Result<Fdr3Response, Error>)
    requires ValidDateTime(now)
    ensures flowDate.Some? && ParseDay(flowDate.value).None? ==> r == Failure(InvalidDate(flowDate.value))
    ensures flowDate.Some? && r.Success? ==> r.value.count == |r.value.data|
  {
    match ResolveBounds(flowDate, now, cfg.flowListDepth)
    case Failure(e) => Failure(e)
    case Success(b) => ListFromReply(fdr3(Fdr3ListUrl(cfg, organizationId, b.lowerText)), b.upper, parse)
  }

  /** With a day: FDR3 is asked for the day at midnight UTC, the cut-off is the
      day at 23:59:59 UTC, and the lower bound is before the upper bound. */
  lemma DayBounds(text: string, now: DateTime, depth: int)
    requires ValidDateTime(now) && ParseDay(text).Some?
    ensures var day := ParseDay(text).value;
            var midnight := DateTime(day, 0, 0, 0, 0, 0);
            var last := DateTime(day, 23, 59, 59, 0, 0);
            && ResolveBounds(Some(text), now, depth) == Success(ListBounds(text + "T00:00:00Z", Some(InstantOf(last))))
            && text + "T00:00:00Z" == FormatIsoOffset(midnight)
            && IsBefore(InstantOf(midnight), InstantOf(last))
  {
    var day := ParseDay(text).value;
    FormatParsedDay(text);
    MidnightText(day);
  }

  /** Without a day: FDR3 is asked for everything since `now` minus the
      configured depth, and its parsed page comes back unchanged (its count is
      not recomputed). */
  lemma NoDayPassesPageThrough(cfg: Config, organizationId: string, now: DateTime,
                               fdr3: string -> Reply<Fdr3Response>, parse: TimestampParser)
    requires ValidDateTime(now)
    ensures var reply := fdr3(Fdr3ListUrl(cfg, organizationId, FormatIsoOffset(MinusMonths(now, cfg.flowListDepth))));
            FetchFdr3List(cfg, organizationId, None, now, fdr3, parse)
              == if reply.status != HttpOk then Failure(UpstreamStatus(reply.status))
                 else if reply.body.None? then Failure(MalformedBody)
                 else Success(reply.body.value)
  {
  }

  /** Published before the midnight that ends `day`, in UTC. */
  predicate PublishedWithinDay(d: Fdr3Data, day: Date, parse: TimestampParser)
    requires ValidDate(day)
  {
    parse(d.published).Some? && InstantOf(parse(d.published).value).epochSecond < EpochDay(NextDay(day)) * SecondsPerDay
  }

  /** Comparing with `D 23:59:59Z + 1s` is comparing with the next midnight:
      nothing is cut for being earlier than the day itself. */
  lemma CutIsNextMidnight(d: Fdr3Data, day: Date, parse: TimestampParser)
    requires ValidDate(day)
    ensures PublishedBefore(d, PlusSeconds(InstantOf(DateTime(day, 23, 59, 59, 0, 0)), 1), parse)
            <==> PublishedWithinDay(d, day, parse)
  {
    EpochDayOfNextDay(day);
  }

  /** The page a 200 reply yields once cut at the end of `day`. */
  ghost predicate DayCutPage(reply: Reply<Fdr3Response>, day: Date, parse: TimestampParser, r: Result<Fdr3Response, Error>)
    requires ValidDate(day)
  {
    && (reply.status != HttpOk ==> r == Failure(UpstreamStatus(reply.status)))
    && (reply.status == HttpOk && reply.body.None? ==> r == Failure(MalformedBody))
    && (reply.status == HttpOk && reply.body.Some? ==>
          var full := reply.body.value;
          && (r.Success? <==> AllPublishedParse(full.data, parse))
          && (r.Success? ==>
                && r.value.metadata == full.metadata
                && r.value.count == |r.value.data|
                && IsSubsequence(r.value.data, full.data)
                && forall d :: multiset(r.value.data)[d]
                     == if PublishedWithinDay(d, day, parse) then multiset(full.data)[d] else 0))
  }

  /** Cutting a reply at `day` 23:59:59 UTC keeps FDR3's metadata, counts what
      is kept, and keeps, in order, exactly what was published before the
      midnight that ends the day. */
  lemma DayCut(reply: Reply<Fdr3Response>, day: Date, parse: TimestampParser)
    requires ValidDate(day)
    ensures DayCutPage(reply, day, parse, ListFromReply(reply, Some(InstantOf(DateTime(day, 23, 59, 59, 0, 0))), parse))
  {
    if reply.status == HttpOk && reply.body.Some? {
      var limit := PlusSeconds(InstantOf(DateTime(day, 23, 59, 59, 0, 0)), 1);
      AllParseIffNoFailure(reply.body.value.data, parse);
      if KeepPublishedBefore(reply.body.value.data, limit, parse).Success? {
        KeptRecords(reply.body.value.data, limit, parse);
      }
    }
    forall d: Fdr3Data {
      CutIsNextMidnight(d, day, parse);
    }
  }

  /** With a valid day D: the request asks for page 1 from D at midnight UTC,
      and the reply is cut at the end of D. */
  lemma DayFilteredPage(cfg: Config, organizationId: string, text: string, now: DateTime,
                        fdr3: string -> Reply<Fdr3Response>, parse: TimestampParser)
    requires ValidDateTime(now) && ParseDay(text).Some?
    ensures var url := cfg.fdr3BaseUrl + "/organizations/" + organizationId + "/fdrs?page=1&size="
                       + cfg.listElementsForPage + "&flowDate=" + text + "T00:00:00Z";
            DayCutPage(fdr3(url), ParseDay(text).value, parse,
                       FetchFdr3List(cfg, organizationId, Some(text), now, fdr3, parse))
  {
    var day := ParseDay(text).value;
    DayBounds(text, now, cfg.flowListDepth);
    var url := cfg.fdr3BaseUrl + "/organizations/" + organizationId + "/fdrs?page=1&size="
               + cfg.listElementsForPage + "&flowDate=" + text + "T00:00:00Z";
    assert Fdr3ListUrl(cfg, organizationId, text + "T00:00:00Z") == url;
    DayCut(fdr3(url), day, parse);
  }

  /** A record published at 23:59:59 UTC of the day, with any fraction of a
      second, is kept. */
  lemma LastSecondKept(d: Fdr3Data, day: Date, nano: int, parse: TimestampParser)
    requires ValidDate(day) && parse(d.published) == Some(DateTime(day, 23, 59, 59, nano, 0))
    ensures PublishedWithinDay(d, day, parse)
  {
    EpochDayOfNextDay(day);
  }

  /** Nothing is cut for being earlier than the day: the lower bound is left
      to FDR3. */
  lemma EarlierThanDayKept(d: Fdr3Data, day: Date, parse: TimestampParser)
    requires ValidDate(day) && parse(d.published).Some?
    requires InstantOf(parse(d.published).value).epochSecond < EpochDay(day) * SecondsPerDay
    ensures PublishedWithinDay(d, day, parse)
  {
    EpochDayOfNextDay(day);
  }

  /** The cut is on the time line, not on the printed wall-clock time: a record
      published at 00:30 of the next day at offset +02:00 (22:30 UTC on the
      day) is kept, although `GetFlowList` prints it with the next day's date. */
  lemma OffsetRecordKept(d: Fdr3Data, day: Date, parse: TimestampParser)
    requires ValidDate(day) && parse(d.published) == Some(DateTime(NextDay(day), 0, 30, 0, 0, 7200))
    ensures PublishedWithinDay(d, day, parse)
  {
    EpochDayOfNextDay(day);
  }

  /** A record published at midnight UTC that ends the day is cut. */
  lemma NextMidnightCut(d: Fdr3Data, day: Date, parse: TimestampParser)
    requires ValidDate(day) && parse(d.published) == Some(DateTime(NextDay(day), 0, 0, 0, 0, 0))
    ensures !PublishedWithinDay(d, day, parse)
  {
  }

  // ===========================================================================
  // getByOrganization: the storage-table filter
  // ===========================================================================

  /** The table query's condition: `PartitionKey eq organizationId`, and with a
      day D also `FlowDate ge D+"T0"` and `FlowDate le D+"T3"` as strings. */
  predicate TableFilter(organizationId: string, flowDate: Option<string>, e: FlowEntity) {
    && e.partitionKey == organizationId
    && (flowDate.Some? ==> Le(flowDate.value + "T0", e.flowDate) && Le(e.flowDate, flowDate.value + "T3"))
  }

  /** A stored date-time text `YYYY-MM-DDTHH...` whose hour is 00 to 23. */
  predicate HourStamped(f: string) {
    && |f| >= 13 && f[10] == 'T' && IsDigit(f[11]) && IsDigit(f[12])
    && (f[11] < '2' || (f[11] == '2' && f[12] <= '3'))
  }

  /** The stored text starts with the ten-character day. */
  predicate DatedOn(f: string, day: string) {
    |f| >= 10 && f[..10] == day
  }

  /** The first position where two strings of equal length differ. */
  function FirstDifference(a: string, b: string): (k: nat)
    requires |a| == |b| && a != b
    ensures k < |a| && a[..k] == b[..k] && a[k] != b[k]
  {
    if a[0] != b[0] then 0
    else
      assert a == [a[0]] + a[1..] && b == [b[0]] + b[1..];
      var k := FirstDifference(a[1..], b[1..]);
      assert a[..k + 1] == [a[0]] + a[1..][..k] && b[..k + 1] == [b[0]] + b[1..][..k];
      k + 1
  }

  /** The `T0`/`T3` range is exact: for a ten-character day and a stored text
      with a zero-padded hour, it holds exactly when the text starts with the day. */
  lemma DayRangeExact(day: string, f: string)
    requires |day| == 10 && HourStamped(f)
    ensures Le(day + "T0", f) && Le(f, day + "T3") <==> DatedOn(f, day)
  {
    if f[..10] == day {
      var tail := f[10..];
      assert f == day + tail;
      LeAfterCommonPrefix(day, "T0", tail);
      LeAfterCommonPrefix(day, tail, "T3");
      assert tail[1..][0] == f[11];
      assert Le("0", tail[1..]);
      assert Le(tail[1..], "3");
    } else {
      var k := FirstDifference(f[..10], day);
      assert f[..k] == day[..k] && f[k] != day[k];
      assert (day + "T0")[..k] == day[..k] && (day + "T3")[..k] == day[..k];
      if f[k] < day[k] {
        LeFirstDifference(f, day + "T0", k);
      } else {
        LeFirstDifference(day + "T3", f, k);
      }
    }
  }

  /** Without a day the filter is the organization alone. */
  lemma TableFilterWithoutDay(organizationId: string, e: FlowEntity)
    ensures TableFilter(organizationId, None, e) <==> e.partitionKey == organizationId
  {
  }

  /** A row stamped during the afternoon of the day is found. */
  lemma AfternoonRowFound()
    ensures TableFilter("org", Some("2024-05-01"), FlowEntity("org", "row", "2024-05-01T14:22:00"))
  {
    var f := "2024-05-01T14:22:00";
    assert HourStamped(f);
    assert f[..10] == "2024-05-01";
    DayRangeExact("2024-05-01", f);
  }

  /** A row stamped just after the following midnight is not found. */
  lemma NextDayRowNotFound()
    ensures !TableFilter("org", Some("2024-05-01"), FlowEntity("org", "row", "2024-05-02T00:00:01"))
  {
    var f, day := "2024-05-02T00:00:01", "2024-05-01";
    assert HourStamped(f);
    assert f[..10][9] != day[9];
    assert !DatedOn(f, day);
    DayRangeExact(day, f);
  }

  /** `table.execute(query)` over the table's rows, in their stored order: the
      rows satisfying the filter, nothing else, in order. */
  function QueryTable(rows: seq<FlowEntity>, organizationId: string, flowDate: Option<string>): (r: seq<FlowEntity>)
    ensures IsSubsequence(r, rows)
    ensures forall e :: multiset(r)[e] == if TableFilter(organizationId, flowDate, e) then multiset(rows)[e] else 0
  {
    if rows == [] then []
    else
      assert rows == [rows[0]] + rows[1..];
      var rest := QueryTable(rows[1..], organizationId, flowDate);
      if TableFilter(organizationId, flowDate, rows[0]) then [rows[0]] + rest else rest
  }

  /** With a valid day, on rows whose dates carry a zero-padded hour, the query
      finds exactly the organization's rows dated that day. */
  lemma DayQueryExact(rows: seq<FlowEntity>, organizationId: string, text: string)
    requires ParseDay(text).Some?
    requires forall i :: 0 <= i < |rows| ==> HourStamped(rows[i].flowDate)
    ensures var found := QueryTable(rows, organizationId, Some(text));
            forall i :: 0 <= i < |rows| ==>
              (rows[i] in found <==> rows[i].partitionKey == organizationId && DatedOn(rows[i].flowDate, text))
  {
    var found := QueryTable(rows, organizationId, Some(text));
    forall i | 0 <= i < |rows|
      ensures rows[i] in found <==> rows[i].partitionKey == organizationId && DatedOn(rows[i].flowDate, text)
    {
      DayRangeExact(text, rows[i].flowDate);
      assert multiset(rows)[rows[i]] > 0;
    }
  }

  /** `getByOrganization`: copy the query's result into a list, then convert
      each row to a `Flow` (`convert` stands for the row-to-flow mapper). */
  method GetByOrganization(rows: seq<FlowEntity>, organizationId: string, flowDate: Option<string>,
                           convert: FlowEntity -> Flow) returns (flows: seq<Flow>)
    ensures var result := QueryTable(rows, organizationId, flowDate);
            |flows| == |result| && forall i :: 0 <= i < |flows| ==> flows[i] == convert(result[i])
  {
    var result := QueryTable(rows, organizationId, flowDate);
    var flowList: seq<FlowEntity> := [];
    var i := 0;
    while i < |result|
      invariant 0 <= i <= |result|
      invariant flowList == result[..i]
    {
      flowList := flowList + [result[i]];
      i := i + 1;
    }
    assert flowList == result;
    flows := seq(|flowList|, k requires 0 <= k < |flowList| => convert(flowList[k]));
  }

  // ===========================================================================
  // getByFlow: the blob key
  // ===========================================================================

  /** `flowDate##organizationId##flowId.xml`. */
  function BlobKey(flowDate: string, organizationId: string, flowId: string): string {
    flowDate + "##" + organizationId + "##" + flowId + ".xml"
  }

  function IndexOf(s: string, c: char): (i: nat)
    ensures i <= |s|
    ensures forall k :: 0 <= k < i ==> s[k] != c
    ensures i < |s| ==> s[i] == c
  {
    if s == [] || s[0] == c then 0 else 1 + IndexOf(s[1..], c)
  }

  /** Splits `s` at its first `##`, when the first `#` starts one. */
  function SplitAtSeparator(s: string): Option<(string, string)> {
    var i := IndexOf(s, '#');
    if i + 1 < |s| && s[i + 1] == '#' then Some((s[..i], s[i + 2..])) else None
  }

  lemma SplitAtSeparatorOf(p: string, q: string)
    requires '#' !in p
    ensures SplitAtSeparator(p + "##" + q) == Some((p, q))
  {
    var s := p + "##" + q;
    var i := IndexOf(s, '#');
    assert forall k :: 0 <= k < |p| ==> s[k] == p[k];
    assert s[|p|] == '#';
    assert s[..i] == p && s[i + 2..] == q;
  }

  /** Reads the three parts back from a blob key. */
  function SplitBlobKey(key: string): Option<(string, string, string)> {
    match SplitAtSeparator(key)
    case None => None
    case Some((flowDate, rest)) =>
      match SplitAtSeparator(rest)
      case None => None
      case Some((organizationId, tail)) =>
        if |tail| >= 4 && tail[|tail| - 4..] == ".xml" then Some((flowDate, organizationId, tail[..|tail| - 4]))
        else None
  }

  /** When the date and organization hold no `#`, the key determines all
      three parts. */
  lemma BlobKeyRoundTrip(flowDate: string, organizationId: string, flowId: string)
    requires '#' !in flowDate && '#' !in organizationId
    ensures SplitBlobKey(BlobKey(flowDate, organizationId, flowId)) == Some((flowDate, organizationId, flowId))
  {
    var tail := flowId + ".xml";
    var rest := organizationId + "##" + tail;
    assert BlobKey(flowDate, organizationId, flowId) == flowDate + "##" + rest;
    SplitAtSeparatorOf(flowDate, rest);
    SplitAtSeparatorOf(organizationId, tail);
    assert tail[..|tail| - 4] == flowId;
  }

  /** `getByFlow`: the blob stored under the flow's key, or a failure when there
      is none. */
  function GetByFlow(blobs: map<string, string>, organizationId: string, flowId: string, flowDate: string): (r: Result<string, Error>)
    ensures r.Success? <==> BlobKey(flowDate, organizationId, flowId) in blobs
    ensures r.Success? ==> r.value == blobs[BlobKey(flowDate, organizationId, flowId)]
    ensures r.Failure? ==> r.error == BlobNotFound(BlobKey(flowDate, organizationId, flowId))
  {
    var key := BlobKey(flowDate, organizationId, flowId);
    if key in blobs then Success(blobs[key]) else Failure(BlobNotFound(key))
  }

  // ===========================================================================
  // fetchFdr1Flow: the legacy document
  // ===========================================================================

  function Fdr1FlowUrl(cfg: Config, organizationId: string, fdr: string): string {
    cfg.fdr1BaseUrl + "/internal/organizations/" + organizationId + "/fdrs/" + fdr
  }

  predicate IsLineEnd(c: char) {
    c == '\n' || c == '\r'
  }

  /** Where the first line of `s` ends. */
  function LineEnd(s: string): (k: nat)
    ensures k <= |s|
    ensures forall j :: 0 <= j < k ==> !IsLineEnd(s[j])
    ensures k < |s| ==> IsLineEnd(s[k])
  {
    if s == [] || IsLineEnd(s[0]) then 0 else 1 + LineEnd(s[1..])
  }

  /** `BufferedReader.readLine` on a non-empty stream: the text up to the first
      `\n`, `\r` or `\r\n`, and what follows that terminator. */
  function ReadLine(s: string): (r: (string, string))
    requires s != []
    ensures |r.1| < |s|
    ensures |r.0| <= |s| && r.0 == s[..|r.0|]
    ensures forall j :: 0 <= j < |r.0| ==> !IsLineEnd(r.0[j])
    ensures |r.0| < |s| ==> IsLineEnd(s[|r.0|])
    ensures |r.0| == |s| ==> r.1 == []
  {
    var k := LineEnd(s);
    var line := s[..k];
    if k == |s| then (line, [])
    else if s[k] == '\r' && k + 1 < |s| && s[k + 1] == '\n' then (line, s[k + 2..])
    else (line, s[k + 1..])
  }

  /** Every line of `s`, each followed by `\n`. */
  function Reassembled(s: string): string
    decreases |s|
  {
    if s == [] then [] else ReadLine(s).0 + "\n" + Reassembled(ReadLine(s).1)
  }

  /** `s` ended by a `\n`, added only when it is missing. */
  function WithFinalNewline(s: string): string {
    if s == [] || s[|s| - 1] == '\n' then s else s + "\n"
  }

  /** Line ends normalised: each `\r\n`, and each `\r` on its own, becomes `\n`. */
  function NormalizeEol(s: string): (r: string)
    ensures '\r' !in r
    decreases |s|
  {
    if s == [] then []
    else if s[0] == '\r' && |s| > 1 && s[1] == '\n' then "\n" + NormalizeEol(s[2..])
    else if s[0] == '\r' then "\n" + NormalizeEol(s[1..])
    else [s[0]] + NormalizeEol(s[1..])
  }

  /** Text without line ends passes through normalisation unchanged. */
  lemma {:induction false} NormalizePlain(p: string, t: string)
    requires forall j :: 0 <= j < |p| ==> !IsLineEnd(p[j])
    ensures NormalizeEol(p + t) == p + NormalizeEol(t)
    decreases |p|
  {
    if p != [] {
      var u := p + t;
      assert u[0] == p[0] && !IsLineEnd(u[0]);
      assert u[1..] == p[1..] + t;
      assert NormalizeEol(u) == [p[0]] + NormalizeEol(p[1..] + t);
      NormalizePlain(p[1..], t);
      assert [p[0]] + (p[1..] + NormalizeEol(t)) == ([p[0]] + p[1..]) + NormalizeEol(t);
      assert [p[0]] + p[1..] == p;
    } else {
      assert p + t == t;
    }
  }

  /** What follows the terminator that starts `t`; `\r\n` counts as one. */
  function AfterTerminator(t: string): string
    requires t != []
  {
    if t[0] == '\r' && |t| > 1 && t[1] == '\n' then t[2..] else t[1..]
  }

  /** A terminator at the front becomes one `\n`; `\r\n` is consumed whole. */
  lemma NormalizeTerminator(t: string)
    requires t != [] && IsLineEnd(t[0])
    ensures NormalizeEol(t)
            == "\n" + NormalizeEol(AfterTerminator(t))
  {
  }

  /** A line without line ends, then a terminator: the terminator (`\r\n`
      whole) normalises to one `\n`. */
  lemma NormalizeLineThenTerminator(line: string, t: string)
    requires forall j :: 0 <= j < |line| ==> !IsLineEnd(line[j])
    requires t != [] && IsLineEnd(t[0])
    ensures NormalizeEol(line + t)
            == line + "\n" + NormalizeEol(AfterTerminator(t))
  {
    NormalizePlain(line, t);
    NormalizeTerminator(t);
  }

  /** `\n` after a line distributes over the final-newline rule. */
  lemma WithFinalNewlineAfter(line: string, t: string)
    ensures WithFinalNewline(line + "\n" + t) == line + "\n" + WithFinalNewline(t)
  {
    var s := line + "\n" + t;
    if t != [] {
      assert s[|s| - 1] == t[|t| - 1];
      assert line + "\n" + (t + "\n") == s + "\n";
    }
  }

  /** Reassembly is end-of-line normalisation plus a final `\n`: `readLine`
      treats `\r\n` as one terminator and a lone `\r` as another. */
  lemma {:induction false} ReassembledIsNormalized(s: string)
    ensures Reassembled(s) == WithFinalNewline(NormalizeEol(s))
    decreases |s|
  {
    if s != [] {
      var line, rest := ReadLine(s).0, ReadLine(s).1;
      assert Reassembled(s) == line + "\n" + Reassembled(rest);
      ReassembledIsNormalized(rest);
      if LineEnd(s) == |s| {
        LastLineNormalized(s);
        assert line + "\n" + [] == line + "\n";
      } else {
        ReadLineAtTerminator(s);
        SplitAt(s, LineEnd(s));
        ReadLineRest(s);
        InnerLineNormalized(line, s[LineEnd(s)..]);
      }
    }
  }

  /** The last line, with no terminator after it. */
  lemma LastLineNormalized(s: string)
    requires s != [] && LineEnd(s) == |s|
    ensures ReadLine(s).1 == [] && WithFinalNewline(NormalizeEol(s)) == ReadLine(s).0 + "\n"
  {
    var line := ReadLine(s).0;
    assert line == s && s + [] == s;
    NormalizePlain(s, []);
    assert !IsLineEnd(s[|s| - 1]);
  }

  /** A line followed by its terminator and more text. */
  lemma InnerLineNormalized(line: string, t: string)
    requires forall j :: 0 <= j < |line| ==> !IsLineEnd(line[j])
    requires t != [] && IsLineEnd(t[0])
    ensures WithFinalNewline(NormalizeEol(line + t)) == line + "\n" + WithFinalNewline(NormalizeEol(AfterTerminator(t)))
  {
    NormalizeLineThenTerminator(line, t);
    WithFinalNewlineAfter(line, NormalizeEol(AfterTerminator(t)));
  }

  /** `ReadLine`'s line is the text up to its first line end. */
  lemma ReadLineAtTerminator(s: string)
    requires s != []
    ensures ReadLine(s).0 == s[..LineEnd(s)]
  {
  }

  lemma SplitAt(s: string, k: nat)
    requires k <= |s|
    ensures s == s[..k] + s[k..]
  {
  }

  /** What `ReadLine` leaves is what follows that terminator, `\r\n` whole. */
  lemma ReadLineRest(s: string)
    requires s != [] && LineEnd(s) < |s|
    ensures ReadLine(s).1 == AfterTerminator(s[LineEnd(s)..])
  {
    var k := LineEnd(s);
    var t := s[k..];
    assert t[0] == s[k] && t[1..] == s[k + 1..];
    if s[k] == '\r' && k + 1 < |s| && s[k + 1] == '\n' {
      assert ReadLine(s).1 == s[k + 2..];
      assert t[1] == s[k + 1] && t[2..] == s[k + 2..];
    } else {
      assert ReadLine(s).1 == s[k + 1..];
      assert k + 1 < |s| ==> t[1] == s[k + 1];
    }
  }

  /** `\r\n` ends one line, not two. */
  lemma CrLfIsOneLineBreak()
    ensures Reassembled("a\r\nb") == "a\nb\n"
  {
    ReassembledIsNormalized("a\r\nb");
    var s := "a\r\nb";
    assert s[0] == 'a' && s[1..] == "\r\nb" && s[1..][2..] == "b";
    assert NormalizeEol("b") == "b";
    assert NormalizeEol(s[1..]) == "\nb";
  }

  /** Reassembly turns every `\r` and `\r\n` into `\n`. */
  lemma {:induction false} ReassembledHasNoCarriageReturn(s: string)
    ensures '\r' !in Reassembled(s)
    decreases |s|
  {
    if s != [] {
      var (line, rest) := ReadLine(s);
      ReassembledHasNoCarriageReturn(rest);
      assert forall j :: 0 <= j < |line| ==> line[j] != '\r';
    }
  }

  /** Text without `\r` is already normalised. */
  lemma {:induction false} NormalizeWithoutCarriageReturn(s: string)
    requires '\r' !in s
    ensures NormalizeEol(s) == s
    decreases |s|
  {
    if s != [] {
      assert s[0] != '\r' && '\r' !in s[1..];
      NormalizeWithoutCarriageReturn(s[1..]);
      assert s == [s[0]] + s[1..];
    }
  }

  /** On text without `\r`, reassembly only adds a final `\n` when missing. */
  lemma ReassembledWithoutCarriageReturn(s: string)
    requires '\r' !in s
    ensures Reassembled(s) == WithFinalNewline(s)
  {
    ReassembledIsNormalized(s);
    NormalizeWithoutCarriageReturn(s);
  }

  /** The loop of `fetchFdr1Flow` over the decompressed text: append each line
      and a `\n`, then trim. */
  method ReassembleFlow(text: string) returns (xml: string)
    ensures xml == Trim(Reassembled(text))
    ensures NoEdgeSpace(xml)
  {
    var builder: string := [];
    var remaining := text;
    while remaining != []
      invariant builder + Reassembled(remaining) == Reassembled(text)
      decreases |remaining|
    {
      var (line, rest) := ReadLine(remaining);
      assert Reassembled(remaining) == line + "\n" + Reassembled(rest);
      builder := builder + line + "\n";
      remaining := rest;
    }
    assert builder == Reassembled(text);
    xml := Trim(builder);
  }

  /** A document without `\r` and without blanks at either end comes out
      exactly as it was compressed. */
  lemma Fdr1TextRoundTrip(text: string)
    requires '\r' !in text && NoEdgeSpace(text)
    ensures Trim(Reassembled(text)) == text
  {
    ReassembledWithoutCarriageReturn(text);
    if text != [] {
      var s := text + "\n";
      assert LeadingSpace(s) == 0;
      assert TrailingSpace(s) == TrailingSpace(text) == |text|;
      assert s[0..|text|] == text;
    }
  }

  /** `fetchFdr1Flow`: `fdr1` is FDR1's reply to a request URL, its body read
      down to the `xmlRendicontazione` text; `base64Decode` and `gunzip`
      (decompression and UTF-8 decoding) are the decoders, `None` where they
      throw. */
  method FetchFdr1Flow(cfg: Config, organizationId: string, fdr: string, fdr1: string -> Reply<string>,
                       base64Decode: string -> Option<seq<Byte>>, gunzip: seq<Byte> -> Option<string>)
    returns (r: Result<string, Error>)
    ensures var reply := fdr1(Fdr1FlowUrl(cfg, organizationId, fdr));
            && (reply.status != HttpOk ==> r == Failure(UpstreamStatus(reply.status)))
            && (reply.status == HttpOk && reply.body.None? ==> r == Failure(MalformedBody))
            && (reply.status == HttpOk && reply.body.Some? ==>
                  match base64Decode(reply.body.value)
                  case None => r == Failure(MalformedBase64)
                  case Some(gzipBytes) =>
                    match gunzip(gzipBytes)
                    case None => r == Failure(MalformedGzip)
                    case Some(text) => r == Success(Trim(Reassembled(text))))
  {
    var reply := fdr1(Fdr1FlowUrl(cfg, organizationId, fdr));
    if reply.status != HttpOk {
      return Failure(UpstreamStatus(reply.status));
    }
    if reply.body.None? {
      return Failure(MalformedBody);
    }
    var gzipBytes := base64Decode(reply.body.value);
    if gzipBytes.None? {
      return Failure(MalformedBase64);
    }
    var text := gunzip(gzipBytes.value);
    if text.None? {
      return Failure(MalformedGzip);
    }
    var xml := ReassembleFlow(text.value);
    r := Success(xml);
  }
}
