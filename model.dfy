/** The records the core exchanges: the FDR3 list response, the flows handed
    to callers, the storage-table entity, the relayed payment-outcome event,
    an HTTP reply as the core sees it, and the failures it can end in. */
module Model {
  import opened Results

  /** Pagination metadata of an FDR3 list page. */
  datatype Fdr3Metadata = Fdr3Metadata(pageSize: int, pageNumber: int, totPage: int)

  /** One FDR3 list entry; `published` is an ISO-8601 offset date-time text. */
  datatype Fdr3Data = Fdr3Data(fdr: string, pspId: string, revision: int, published: string)

  /** One FDR3 list page. */
  datatype Fdr3Response = Fdr3Response(metadata: Fdr3Metadata, count: int, data: seq<Fdr3Data>)

  /** A flow as listed to callers: its identifier and its date text. */
  datatype Flow = Flow(flowId: string, flowDate: string)

  /** The storage-table row of a flow: `PartitionKey` is the organization,
      `FlowDate` the flow's date-time text. */
  datatype FlowEntity = FlowEntity(partitionKey: string, rowKey: string, flowDate: string)

  /** The fields of a payment-outcome event that the relay uses; `None` is a
      JSON null or an absent field. */
  datatype ReportedIUVEvent = ReportedIUVEvent(iuv: Option<string>, domainId: Option<string>, idTransfer: Option<int>)

  /** An HTTP reply: its status code and its body as read by the JSON mapper
      (`None` when the body cannot be read as the expected document). */
  datatype Reply<T> = Reply(status: int, body: Option<T>)

  type Byte = b: int | 0 <= b < 256

  /** The exceptions the core lets escape. */
  datatype Error =
    | InvalidDate(text: string)         // DateTimeParseException on the requested day
    | UpstreamStatus(status: int)       // RuntimeException on a non-200 reply
    | MalformedBody                     // the JSON mapper cannot read the reply body
    | MalformedTimestamp(text: string)  // DateTimeParseException on a `published` value
    | BlobNotFound(key: string)         // the blob download fails
    | MalformedBase64                   // IllegalArgumentException from the Base64 decoder
    | MalformedGzip                     // IOException from the gzip stream
    | MalformedEvent(item: string)      // the JSON mapper cannot read an event

  const HttpOk := 200
  const HttpBadRequest := 400
}
