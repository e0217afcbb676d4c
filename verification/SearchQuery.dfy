/** The parsed form of a search: a flat list of terms that are AND'd together. */
module SearchQuery {
  import opened Strings

  /** `Freeform` is the empty key: the value is matched against a fixed union of fields. */
  datatype Field =
    | Freeform | Host | Path | Service | Body | Headers | Header
    | Method | Status | SourceIP | CorrelationID | HasEvents

  datatype Wildcard = Exactly | Prefix | Substring

  datatype StatusFilter = Exact(code: int) | Class(text: string)

  datatype Term = Term(
    field: Field,
    value: string,
    wildcard: Wildcard,
    quoted: bool,
    negated: bool,
    headerName: string,              // only for Header
    status: Option<StatusFilter>,    // only for Status
    hasEvents: Option<bool>)         // only for HasEvents

  type Query = seq<Term>

  function FieldName(f: Field): string {
    match f
    case Freeform => ""
    case Host => "host"
    case Path => "path"
    case Service => "service"
    case Body => "body"
    case Headers => "headers"
    case Header => "header"
    case Method => "method"
    case Status => "status"
    case SourceIP => "source_ip"
    case CorrelationID => "correlation_id"
    case HasEvents => "has_events"
  }

  /** The keys Parse accepts by name; `header.<name>` is recognised separately. */
  function KnownField(keyLow: string): Option<Field> {
    if keyLow == "host" then Some(Host)
    else if keyLow == "path" then Some(Path)
    else if keyLow == "service" then Some(Service)
    else if keyLow == "body" then Some(Body)
    else if keyLow == "headers" then Some(Headers)
    else if keyLow == "method" then Some(Method)
    else if keyLow == "status" then Some(Status)
    else if keyLow == "source_ip" then Some(SourceIP)
    else if keyLow == "correlation_id" then Some(CorrelationID)
    else if keyLow == "has_events" then Some(HasEvents)
    else None
  }

  predicate Structured(f: Field) {
    f in {Method, Status, SourceIP, CorrelationID, HasEvents}
  }

  /** Inclusive range of a class such as "5xx". */
  function ClassLow(text: string): int
    requires text != ""
  {
    (text[0] as int - '0' as int) * 100
  }

  function ClassHigh(text: string): int
    requires text != ""
  {
    ClassLow(text) + 99
  }

  /** Terms that only make sense on captured requests; one of them hides the orphan rows. */
  predicate RequestOnly(t: Term) {
    t.field in {Host, Path, Method, SourceIP, Body, HasEvents}
  }

  predicate HasRequestOnlyTerm(q: Query) {
    exists t :: t in q && RequestOnly(t)
  }

  /** What Parse leaves in the side fields of a term, which the compilers rely on. */
  predicate WellFormed(t: Term) {
    && (t.field == Status <==> t.status.Some?)
    && (t.field == HasEvents <==> t.hasEvents.Some?)
    && (Structured(t.field) ==> t.wildcard == Exactly)
    && (t.status.Some? ==>
          match t.status.value
          case Exact(n) => 100 <= n <= 599
          case Class(c) => |c| == 3 && '1' <= c[0] <= '5' && c[1] == c[2] == 'x')
  }
}
