/** `GetFlowList.run`: the FDR3 list of an organization turned into `Flow`
    values dated by local wall-clock time, sorted latest first, and wrapped in
    an HTTP response. */
module GetFlowList {
  import opened Results
  import opened Text
  import opened Calendar
  import opened Model
  import opened FlowsService

  // ---------------------------------------------------------------------------
  // map: one Flow per record
  // ---------------------------------------------------------------------------

  /** The `map` step: each record becomes `Flow(fdr, local print of its
      published timestamp)`; the first timestamp that does not parse fails the
      whole list. */
  function ToFlows(data: seq<Fdr3Data>, parse: TimestampParser): (r: Result<seq<Flow>, Error>)
    ensures r.Success? <==> FirstUnparsed(data, parse) == |data|
    ensures r.Failure? ==> r.error == MalformedTimestamp(data[FirstUnparsed(data, parse)].published)
    ensures r.Success? ==> |r.value| == |data|
    ensures r.Success? ==> forall i :: 0 <= i < |data| ==>
              r.value[i] == Flow(data[i].fdr, FormatLocal(parse(data[i].published).value))
  {
    if data == [] then Success([])
    else
      match parse(data[0].published)
      case None => Failure(MalformedTimestamp(data[0].published))
      case Some(t) =>
        match ToFlows(data[1..], parse)
        case Failure(e) => Failure(e)
        case Success(rest) =>
          assert forall i :: 1 <= i < |data| ==> data[i] == data[1..][i - 1];
          Success([Flow(data[0].fdr, FormatLocal(t))] + rest)
  }

  // ---------------------------------------------------------------------------
  // sorted(comparing(Flow::getFlowDate).reversed()): a stable sort, latest first
  // ---------------------------------------------------------------------------

  /** Places `x` before the first flow dated no later than it, so that among
      equal dates `x` stays ahead of the flows that followed it. */
  function Insert(x: Flow, s: seq<Flow>): (r: seq<Flow>)
    ensures multiset(r) == multiset(s) + multiset{x}
  {
    if s == [] || Le(s[0].flowDate, x.flowDate) then [x] + s
    else
      assert s == [s[0]] + s[1..];
      [s[0]] + Insert(x, s[1..])
  }

  /** The stable sort, as insertion of each flow, last first, into the sorted
      rest. */
  function SortDescending(s: seq<Flow>): (r: seq<Flow>)
    ensures multiset(r) == multiset(s)
  {
    if s == [] then []
    else
      assert s == [s[0]] + s[1..];
      Insert(s[0], SortDescending(s[1..]))
  }

  /** Every flow is dated no earlier than every flow after it. */
  predicate Descending(s: seq<Flow>) {
    forall i, j :: 0 <= i < j < |s| ==> Le(s[j].flowDate, s[i].flowDate)
  }

  lemma {:induction false} InsertDescending(x: Flow, s: seq<Flow>)
    requires Descending(s)
    ensures Descending(Insert(x, s))
    decreases |s|
  {
    var r := Insert(x, s);
    if s == [] {
    } else if Le(s[0].flowDate, x.flowDate) {
      forall j | 0 <= j < |s| ensures Le(s[j].flowDate, x.flowDate) {
        if j > 0 { LeTransitive(s[j].flowDate, s[0].flowDate, x.flowDate); }
      }
      assert forall j :: 1 <= j < |r| ==> r[j] == s[j - 1];
    } else {
      LeTotal(s[0].flowDate, x.flowDate);
      var tail := Insert(x, s[1..]);
      InsertDescending(x, s[1..]);
      forall j | 0 <= j < |tail| ensures Le(tail[j].flowDate, s[0].flowDate) {
        assert tail[j] in multiset(tail);
        if tail[j] != x {
          assert tail[j] in multiset(s[1..]);
          var m :| 0 <= m < |s[1..]| && s[1..][m] == tail[j];
          assert s[m + 1] == tail[j];
        }
      }
      assert r == [s[0]] + tail;
    }
  }

  /** The result is sorted latest first. */
  lemma {:induction false} SortIsDescending(s: seq<Flow>)
    ensures Descending(SortDescending(s))
    decreases |s|
  {
    if s != [] {
      SortIsDescending(s[1..]);
      InsertDescending(s[0], SortDescending(s[1..]));
    }
  }

  /** The flows of `s` dated exactly `date`, in their order in `s`. */
  function WithDate(s: seq<Flow>, date: string): seq<Flow> {
    if s == [] then [] else (if s[0].flowDate == date then [s[0]] else []) + WithDate(s[1..], date)
  }

  lemma WithDateCons(y: Flow, s: seq<Flow>, date: string)
    ensures WithDate([y] + s, date) == (if y.flowDate == date then [y] else []) + WithDate(s, date)
  {
    assert ([y] + s)[1..] == s;
  }

  lemma {:induction false} InsertStable(x: Flow, s: seq<Flow>, date: string)
    ensures WithDate(Insert(x, s), date) == (if x.flowDate == date then [x] else []) + WithDate(s, date)
    decreases |s|
  {
    if s != [] && !Le(s[0].flowDate, x.flowDate) {
      var y, rest := s[0], s[1..];
      LeReflexive(x.flowDate);
      assert Insert(x, s) == [y] + Insert(x, rest);
      assert s == [y] + rest;
      InsertStable(x, rest, date);
      WithDateCons(y, Insert(x, rest), date);
      WithDateCons(y, rest, date);
      if y.flowDate == date {
        assert x.flowDate != date;
        assert WithDate(Insert(x, s), date) == [y] + WithDate(rest, date);
      } else {
        assert WithDate(Insert(x, s), date) == WithDate(Insert(x, rest), date);
      }
    } else {
      WithDateCons(x, s, date);
    }
  }

  /** Stability: the flows sharing a date come out in their input order. */
  lemma {:induction false} SortStable(s: seq<Flow>, date: string)
    ensures WithDate(SortDescending(s), date) == WithDate(s, date)
    decreases |s|
  {
    if s != [] {
      SortStable(s[1..], date);
      InsertStable(s[0], SortDescending(s[1..]), date);
    }
  }

  /** For four-digit years, the order of the printed dates is the order of the
      local wall-clock times, to the second. */
  lemma WallClockOrder(a: Fdr3Data, b: Fdr3Data, parse: TimestampParser)
    requires parse(a.published).Some? && parse(b.published).Some?
    requires 1 <= parse(a.published).value.date.year <= 9999
    requires 1 <= parse(b.published).value.date.year <= 9999
    ensures Le(FormatLocal(parse(a.published).value), FormatLocal(parse(b.published).value))
            <==> LocalNotAfter(parse(a.published).value, parse(b.published).value)
  {
    FormatLocalOrder(parse(a.published).value, parse(b.published).value);
  }

  // ---------------------------------------------------------------------------
  // The HTTP outcome
  // ---------------------------------------------------------------------------

  datatype HttpResponse = HttpResponse(status: int, contentType: string, body: Option<seq<Flow>>)

  /** `getQueryParameters().getOrDefault("flowDate", null)`. */
  function QueryFlowDate(query: map<string, string>): Option<string> {
    if "flowDate" in query then Some(query["flowDate"]) else None
  }

  /** `run`: 200 with the sorted flows, or 400 without a body when fetching or
      any date parsing fails; the content type is JSON either way. */
  function Run(cfg: Config, organizationId: string, query: map<string, string>, now: DateTime,
               fdr3: string -> Reply<Fdr3Response>, parse: TimestampParser): (resp: HttpResponse)
    requires ValidDateTime(now)
    ensures resp.contentType == "application/json"
    ensures resp.status == HttpOk || resp.status == HttpBadRequest
    ensures resp.status == HttpOk <==> resp.body.Some?
  {
    match FetchFdr3List(cfg, organizationId, QueryFlowDate(query), now, fdr3, parse)
    case Failure(_) => HttpResponse(HttpBadRequest, "application/json", None)
    case Success(page) =>
      match ToFlows(page.data, parse)
      case Failure(_) => HttpResponse(HttpBadRequest, "application/json", None)
      case Success(flows) => HttpResponse(HttpOk, "application/json", Some(SortDescending(flows)))
  }

  /** The response is 200 exactly when the list was fetched and every record's
      timestamp parses; its body then has one flow per record, holds exactly
      the mapped flows, latest first, with equal dates in FDR3's order. */
  lemma RunOutcome(cfg: Config, organizationId: string, query: map<string, string>, now: DateTime,
                   fdr3: string -> Reply<Fdr3Response>, parse: TimestampParser)
    requires ValidDateTime(now)
    ensures var listed := FetchFdr3List(cfg, organizationId, QueryFlowDate(query), now, fdr3, parse);
            var resp := Run(cfg, organizationId, query, now, fdr3, parse);
            && (resp.status == HttpOk <==> listed.Success? && AllPublishedParse(listed.value.data, parse))
            && (resp.status != HttpOk && listed.Success? ==>
                  var i := FirstUnparsed(listed.value.data, parse);
                  i < |listed.value.data| && parse(listed.value.data[i].published).None?)
            && (resp.status == HttpOk ==>
                  var flows := ToFlows(listed.value.data, parse).value;
                  && |resp.body.value| == |listed.value.data|
                  && multiset(resp.body.value) == multiset(flows)
                  && Descending(resp.body.value)
                  && forall date :: WithDate(resp.body.value, date) == WithDate(flows, date))
  {
    var listed := FetchFdr3List(cfg, organizationId, QueryFlowDate(query), now, fdr3, parse);
    if listed.Success? {
      AllParseIffNoFailure(listed.value.data, parse);
    }
    if listed.Success? && AllPublishedParse(listed.value.data, parse) {
      var flows := ToFlows(listed.value.data, parse).value;
      SortIsDescending(flows);
      forall date { SortStable(flows, date); }
      assert |SortDescending(flows)| == |multiset(SortDescending(flows))| == |multiset(flows)| == |flows|;
    }
  }
}
