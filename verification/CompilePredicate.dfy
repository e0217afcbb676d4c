/** The in-memory matcher. */
module CompilePredicate {
  import opened Strings
  import opened Capture
  import opened SearchQuery

  /** A term's wildcard shape applied to one field value. */
  predicate MatchString(s: string, t: Term) {
    match t.wildcard
    case Prefix => HasPrefix(s, t.value)
    case Substring => Contains(s, t.value)
    case Exactly => s == t.value
  }

  /** Case-insensitive containment. */
  predicate ContainsFold(s: string, v: string) {
    Contains(ToLower(s), ToLower(v))
  }

  /** bodyContainsFold: the needle is already lowercased, an empty one matches. */
  predicate BodyContains(body: string, needle: string) {
    needle == "" || Contains(ToLower(body), needle)
  }

  predicate HeadersAny(h: HeaderMap, v: string) {
    exists name :: name in h &&
      (ContainsFold(name, v) || exists x :: x in h[name] && ContainsFold(x, v))
  }

  predicate HeaderValueContains(h: HeaderMap, name: string, v: string) {
    name in h && exists x :: x in h[name] && ContainsFold(x, v)
  }

  predicate MatchFreeformRequest(t: Term, needle: string, r: CapturedRequest) {
    || MatchString(HostOf(r.headers), t)
    || MatchString(r.path, t)
    || MatchString(r.service, t)
    || BodyContains(r.body, needle)
    || HeadersAny(r.headers, t.value)
  }

  predicate EvaluateTerm(t: Term, needle: string, r: CapturedRequest) {
    match t.field
    case Freeform => MatchFreeformRequest(t, needle, r)
    case Host => MatchString(HostOf(r.headers), t)
    case Path => MatchString(r.path, t)
    case Service => MatchString(r.service, t)
    case Body => BodyContains(r.body, needle)
    case Headers => HeadersAny(r.headers, t.value)
    case Header => HeaderValueContains(r.headers, t.headerName, t.value)
    case Method => r.verb == t.value
    case SourceIP => r.sourceIP == t.value
    case CorrelationID => r.correlationID == t.value
    case Status => false
    case HasEvents => false
  }

  predicate MatchTerm(t: Term, needle: string, r: CapturedRequest) {
    if t.field == Status || t.field == HasEvents then true
    else EvaluateTerm(t, needle, r) != t.negated
  }

  /** Every term accepts the request. */
  predicate Accepts(q: Query, r: CapturedRequest) {
    forall t :: t in q ==> MatchTerm(t, ToLower(t.value), r)
  }

  /** CompilePredicate: needles are lowercased once, then the closure is returned. */
  method Compile(q: Query) returns (matcher: CapturedRequest -> bool)
    ensures forall r :: matcher(r) <==> Accepts(q, r)
  {
    if q == [] {
      return r => true;
    }
    var needles := seq(|q|, i => "");
    var i := 0;
    while i < |q|
      invariant 0 <= i <= |q| == |needles|
      invariant forall k :: 0 <= k < i && q[k].field in {Body, Freeform} ==> needles[k] == ToLower(q[k].value)
    {
      if q[i].field == Body || q[i].field == Freeform {
        needles := needles[i := ToLower(q[i].value)];
      }
      i := i + 1;
    }
    forall r: CapturedRequest
      ensures (forall k :: 0 <= k < |q| ==> MatchTerm(q[k], needles[k], r)) <==> Accepts(q, r)
    {
      forall k | 0 <= k < |q|
        ensures MatchTerm(q[k], needles[k], r) == MatchTerm(q[k], ToLower(q[k].value), r)
      {
        NeedleUnused(q[k], needles[k], r);
      }
      assert forall k :: 0 <= k < |q| ==> q[k] in q;
    }
    matcher := (r: CapturedRequest) => forall k :: 0 <= k < |q| ==> MatchTerm(q[k], needles[k], r);
  }

  lemma NeedleUnused(t: Term, needle: string, r: CapturedRequest)
    requires t.field in {Body, Freeform} ==> needle == ToLower(t.value)
    ensures MatchTerm(t, needle, r) == MatchTerm(t, ToLower(t.value), r)
  {}

  // Orphan events

  predicate MatchFreeformResponse(t: Term, ev: ResponseEvent) {
    || MatchString(ev.service, t)
    || BodyContains(ev.body, ToLower(t.value))
    || HeadersAny(ev.headers, t.value)
  }

  predicate MatchFreeformOutbound(t: Term, ev: OutboundEvent) {
    || MatchString(ev.service, t)
    || MatchString(ev.request.path, t)
    || BodyContains(ev.request.body, ToLower(t.value))
    || HeadersAny(ev.request.headers, t.value)
    || (ev.response.Some? &&
        (BodyContains(ev.response.value.body, ToLower(t.value)) || HeadersAny(ev.response.value.headers, t.value)))
  }

  predicate StatusMatches(sf: StatusFilter, status: int)
    requires sf.Class? ==> sf.text != ""
  {
    match sf
    case Exact(n) => status == n
    case Class(c) => ClassLow(c) <= status <= ClassHigh(c)
  }

  /** Which terms an orphan event answers at all; the others are skipped. */
  predicate AppliesToOrphan(t: Term) {
    t.field in {Freeform, Headers, Header, Service, CorrelationID}
  }

  predicate EvaluateResponse(t: Term, ev: ResponseEvent)
    requires WellFormed(t)
  {
    match t.field
    case Freeform => MatchFreeformResponse(t, ev)
    case Status => StatusMatches(t.status.value, ev.status)
    case Headers => HeadersAny(ev.headers, t.value)
    case Header => HeaderValueContains(ev.headers, t.headerName, t.value)
    case Service => MatchString(ev.service, t)
    case CorrelationID => ev.correlationID == t.value
    case _ => false
  }

  predicate EvaluateOutbound(t: Term, ev: OutboundEvent) {
    match t.field
    case Freeform => MatchFreeformOutbound(t, ev)
    case Headers =>
      HeadersAny(ev.request.headers, t.value) ||
      (ev.response.Some? && HeadersAny(ev.response.value.headers, t.value))
    case Header =>
      HeaderValueContains(ev.request.headers, t.headerName, t.value) ||
      (ev.response.Some? && HeaderValueContains(ev.response.value.headers, t.headerName, t.value))
    case Service => MatchString(ev.service, t)
    case CorrelationID => ev.correlationID == t.value
    case _ => false
  }

  predicate MatchResponseTerm(t: Term, ev: ResponseEvent)
    requires WellFormed(t)
  {
    (AppliesToOrphan(t) || t.field == Status) ==> EvaluateResponse(t, ev) != t.negated
  }

  /** Outbound events have no top-level status: any status term excludes them. */
  predicate MatchOutboundTerm(t: Term, ev: OutboundEvent) {
    t.field != Status && (AppliesToOrphan(t) ==> EvaluateOutbound(t, ev) != t.negated)
  }

  predicate MatchOrphanResponse(q: Query, ev: ResponseEvent)
    requires forall t :: t in q ==> WellFormed(t)
  {
    forall t :: t in q ==> MatchResponseTerm(t, ev)
  }

  predicate MatchOrphanOutbound(q: Query, ev: OutboundEvent) {
    forall t :: t in q ==> MatchOutboundTerm(t, ev)
  }
}
