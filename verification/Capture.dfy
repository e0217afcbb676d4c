/** The records that flow through httpcatch. Timestamps are integer nanoseconds. */
module Capture {
  import opened Strings

  type HeaderMap = map<string, seq<string>>

  datatype CapturedRequest = CapturedRequest(
    id: string,
    timestamp: int,
    verb: string,
    path: string,
    headers: HeaderMap,
    body: string,
    sourceIP: string,
    service: string,
    correlationID: string)

  datatype ResponseEvent = ResponseEvent(
    id: string,
    timestamp: int,
    correlationID: string,
    service: string,
    status: int,
    headers: HeaderMap,
    body: string)

  datatype OutboundRequest = OutboundRequest(path: string, headers: HeaderMap, body: string)

  datatype OutboundResponse = OutboundResponse(headers: HeaderMap, body: string)

  datatype OutboundEvent = OutboundEvent(
    id: string,
    timestamp: int,
    correlationID: string,
    service: string,
    request: OutboundRequest,
    response: Option<OutboundResponse>)   // None when the call never completed

  datatype Record =
    | Request(request: CapturedRequest)
    | Response(response: ResponseEvent)
    | Outbound(outbound: OutboundEvent)
  {
    function Id(): string {
      match this
      case Request(r) => r.id
      case Response(r) => r.id
      case Outbound(r) => r.id
    }

    function Timestamp(): int {
      match this
      case Request(r) => r.timestamp
      case Response(r) => r.timestamp
      case Outbound(r) => r.timestamp
    }

    function CorrelationID(): string {
      match this
      case Request(r) => r.correlationID
      case Response(r) => r.correlationID
      case Outbound(r) => r.correlationID
    }
  }

  const HOST_HEADER := "Host"

  /** The host of a request: the first value of its Host header, or empty. */
  function HostOf(headers: HeaderMap): string {
    if HOST_HEADER in headers && headers[HOST_HEADER] != [] then headers[HOST_HEADER][0] else ""
  }
}
