/** `GpdReportingSync`: each event of a batch is read and relayed to GPD as a
    "report this transfer" call; the calls made are kept in a log. */
module ReportingSync {
  import opened Results
  import opened Text
  import opened Model

  /** `String.valueOf` on a `Long` that may be null: `"null"`, or the signed
      decimal value. */
  function ValueOfLong(v: Option<int>): string {
    match v
    case None => "null"
    case Some(n) => if n < 0 then "-" + Decimal(-n) else Decimal(n)
  }

  /** A transfer id prints as its value, never as the null text, and reads back
      as the same number. */
  lemma TransferIdText(n: int)
    ensures var s := ValueOfLong(Some(n));
            && s != "null"
            && (n >= 0 ==> AllDigits(s) && DigitsValue(s) == n)
            && (n < 0 ==> s[0] == '-' && AllDigits(s[1..]) && DigitsValue(s[1..]) == -n)
  {
    var a := if n < 0 then -n else n;
    FixedValue(a, NumDigits(a));
    var s := ValueOfLong(Some(n));
    if n >= 0 {
      assert IsDigit(s[0]);
    } else {
      assert s[1..] == Decimal(a);
    }
  }

  /** A null string concatenated into a path prints as `null`. */
  function TextOrNull(v: Option<string>): string {
    match v
    case None => "null"
    case Some(s) => s
  }

  /** The GPD path that reports a transfer. */
  function ReportPath(gpdBasePath: string, organizationId: string, iuv: string, transferId: string): string {
    gpdBasePath + "/organizations/" + organizationId + "/paymentoptions/" + iuv + "/transfers/" + transferId + "/report"
  }

  /** The relay call an event leads to: its domain as the organization, its
      IUV, and its transfer id as `String.valueOf` prints it. */
  function EventPath(gpdBasePath: string, e: ReportedIUVEvent): string {
    ReportPath(gpdBasePath, TextOrNull(e.domainId), TextOrNull(e.iuv), ValueOfLong(e.idTransfer))
  }

  /** An event without a transfer id is still relayed, to the `null` transfer. */
  lemma NullTransferRelayed(gpdBasePath: string, e: ReportedIUVEvent)
    requires e.idTransfer.None?
    ensures EventPath(gpdBasePath, e)
            == gpdBasePath + "/organizations/" + TextOrNull(e.domainId) + "/paymentoptions/" + TextOrNull(e.iuv)
               + "/transfers/null/report"
  {
  }

  /** One logged relay call: its path and whether the POST completed without an
      exception (a failed one is only logged). */
  datatype RelayRequest = RelayRequest(path: string, completed: bool)

  /** The events read before the first item that does not parse: all of them
      when every item parses. */
  function ParsedPrefix(items: seq<string>, parseEvent: string -> Option<ReportedIUVEvent>): (r: seq<ReportedIUVEvent>)
    ensures |r| <= |items|
    ensures forall i :: 0 <= i < |r| ==> parseEvent(items[i]) == Some(r[i])
    ensures |r| < |items| ==> parseEvent(items[|r|]).None?
  {
    if items == [] then []
    else
      match parseEvent(items[0])
      case None => []
      case Some(e) => [e] + ParsedPrefix(items[1..], parseEvent)
  }

  /** The characterisation above determines the prefix. */
  lemma ParsedPrefixUnique(items: seq<string>, parseEvent: string -> Option<ReportedIUVEvent>, r: seq<ReportedIUVEvent>)
    requires |r| <= |items|
    requires forall i :: 0 <= i < |r| ==> parseEvent(items[i]) == Some(r[i])
    requires |r| < |items| ==> parseEvent(items[|r|]).None?
    ensures r == ParsedPrefix(items, parseEvent)
  {
    var p := ParsedPrefix(items, parseEvent);
    assert |p| == |r|;
  }

  /** One more parsed item extends the prefix by its event. */
  lemma ParsedPrefixSnoc(items: seq<string>, i: nat, parseEvent: string -> Option<ReportedIUVEvent>)
    requires i < |items| && parseEvent(items[i]).Some?
    requires |ParsedPrefix(items[..i], parseEvent)| == i
    ensures ParsedPrefix(items[..i + 1], parseEvent) == ParsedPrefix(items[..i], parseEvent) + [parseEvent(items[i]).value]
  {
    var before := ParsedPrefix(items[..i], parseEvent);
    assert forall k :: 0 <= k < i ==> items[..i][k] == items[..i + 1][k];
    ParsedPrefixUnique(items[..i + 1], parseEvent, before + [parseEvent(items[i]).value]);
  }

  /** The prefix ends at the first item that does not parse. */
  lemma ParsedPrefixAtFailure(items: seq<string>, i: nat, parseEvent: string -> Option<ReportedIUVEvent>)
    requires i < |items| && parseEvent(items[i]).None?
    requires |ParsedPrefix(items[..i], parseEvent)| == i
    ensures ParsedPrefix(items, parseEvent) == ParsedPrefix(items[..i], parseEvent)
  {
    var before := ParsedPrefix(items[..i], parseEvent);
    assert forall k :: 0 <= k < i ==> items[..i][k] == items[k];
    ParsedPrefixUnique(items, parseEvent, before);
  }

  /** The calls a sequence of events leads to, in order. */
  function Relayed(gpdBasePath: string, events: seq<ReportedIUVEvent>, send: string -> bool): (r: seq<RelayRequest>)
    ensures |r| == |events|
    ensures forall i :: 0 <= i < |r| ==> r[i].path == EventPath(gpdBasePath, events[i])
  {
    seq(|events|, i requires 0 <= i < |events| => RelayRequest(EventPath(gpdBasePath, events[i]), send(EventPath(gpdBasePath, events[i]))))
  }

  lemma RelayedSnoc(gpdBasePath: string, events: seq<ReportedIUVEvent>, e: ReportedIUVEvent, send: string -> bool)
    ensures var path := EventPath(gpdBasePath, e);
            Relayed(gpdBasePath, events + [e], send) == Relayed(gpdBasePath, events, send) + [RelayRequest(path, send(path))]
  {
  }

  /** The event-hub function, holding the log of the relay calls it has made.
      `send` stands for the POST to GPD: whether it completes without an
      exception. */
  class GpdReportingSync {
    const gpdBasePath: string
    var requests: seq<RelayRequest>

    constructor(gpdBasePath: string)
      ensures this.gpdBasePath == gpdBasePath && requests == []
    {
      this.gpdBasePath := gpdBasePath;
      requests := [];
    }

    /** `gpdReport`: one POST to the transfer's report path; a failure is
        swallowed. */
    method GpdReport(organizationId: string, iuv: string, transferId: string, send: string -> bool)
      modifies this
      ensures var path := ReportPath(gpdBasePath, organizationId, iuv, transferId);
              requests == old(requests) + [RelayRequest(path, send(path))]
    {
      var path := ReportPath(gpdBasePath, organizationId, iuv, transferId);
      var completed := send(path);
      requests := requests + [RelayRequest(path, completed)];
    }

    /** `run`: relays each event in arrival order; the first item that does
        not parse ends the batch with an exception, after the calls for the
        items before it. */
    method Run(items: seq<string>, parseEvent: string -> Option<ReportedIUVEvent>, send: string -> bool)
      returns (outcome: Result<(), Error>)
      modifies this
      ensures outcome.Success? <==> |ParsedPrefix(items, parseEvent)| == |items|
      ensures outcome.Failure? ==> outcome.error == MalformedEvent(items[|ParsedPrefix(items, parseEvent)|])
      ensures requests == old(requests) + Relayed(gpdBasePath, ParsedPrefix(items, parseEvent), send)
    {
      var i := 0;
      while i < |items|
        invariant 0 <= i <= |items|
        invariant |ParsedPrefix(items[..i], parseEvent)| == i
        invariant requests == old(requests) + Relayed(gpdBasePath, ParsedPrefix(items[..i], parseEvent), send)
      {
        var event := parseEvent(items[i]);
        if event.None? {
          ParsedPrefixAtFailure(items, i, parseEvent);
          return Failure(MalformedEvent(items[i]));
        }
        ParsedPrefixSnoc(items, i, parseEvent);
        RelayedSnoc(gpdBasePath, ParsedPrefix(items[..i], parseEvent), event.value, send);
        GpdReport(TextOrNull(event.value.domainId), TextOrNull(event.value.iuv), ValueOfLong(event.value.idTransfer), send);
        i := i + 1;
      }
      assert items[..i] == items;
      outcome := Success(());
    }
  }

  /** An empty batch makes no call. */
  lemma EmptyBatchRelaysNothing(parseEvent: string -> Option<ReportedIUVEvent>, send: string -> bool, gpdBasePath: string)
    ensures Relayed(gpdBasePath, ParsedPrefix([], parseEvent), send) == []
  {
  }

  /** The batch is relayed whole exactly when every item parses, one call per
      item in arrival order. */
  lemma EveryEventRelayed(items: seq<string>, parseEvent: string -> Option<ReportedIUVEvent>)
    ensures |ParsedPrefix(items, parseEvent)| == |items| <==> forall i :: 0 <= i < |items| ==> parseEvent(items[i]).Some?
  {
    var r := ParsedPrefix(items, parseEvent);
    if |r| == |items| {
      assert forall i :: 0 <= i < |items| ==> parseEvent(items[i]) == Some(r[i]);
    }
  }
}
