/** The SQL conditions and the in-memory matcher accept the same rows. */
module BackendAgreement {
  import opened Strings
  import opened Capture
  import opened SearchQuery
  import opened Sql
  import opened CompileSql
  import opened RootsQuery
  import opened CompilePredicate
  import Like

  // Stored rows. `json` stands for the marshalled text, which may be any string.

  function StoredRequest(r: CapturedRequest, json: string): RequestRow {
    RequestRow(r.id, r.timestamp, r.service, HostOf(r.headers), r.correlationID,
               r.verb, r.path, r.sourceIP, Json(json, r.headers), r.body)
  }

  function StoredResponse(ev: ResponseEvent, json: string): EventRow {
    EventRow(ev.id, ev.timestamp, true, ev.correlationID, ev.service,
             Int(ev.status), Null, Null, Null, Json(json, ev.headers), Text(ev.body))
  }

  function StoredOutbound(ev: OutboundEvent, reqJson: string, respJson: string): EventRow {
    EventRow(ev.id, ev.timestamp, false, ev.correlationID, ev.service,
             Null, Text(ev.request.path), Json(reqJson, ev.request.headers), Text(ev.request.body),
             if ev.response.Some? then Json(respJson, ev.response.value.headers) else Null,
             if ev.response.Some? then Text(ev.response.value.body) else Null)
  }

  function AtRequest(db: Db, row: RequestRow): Env { Env(db, Some(row), None) }

  function AtEvent(db: Db, row: EventRow): Env { Env(db, None, Some(row)) }

  // One condition against one field

  lemma IndexedAgrees(col: Column, t: Term, env: Env, s: string)
    requires ColumnValue(col, env) == Text(s)
    ensures Eval(IndexedMeaning(col, t), env) == OfBool(MatchString(s, t))
  {
    match t.wildcard
    case Prefix => Like.PrefixLikeExact(s, t.value);
    case Substring => Like.SubstringLikeExact(s, t.value);
    case Exactly =>
  }

  lemma ScannedAgrees(col: Column, t: Term, env: Env, s: string)
    requires TextOf(ColumnValue(col, env)) == Some(s)
    ensures Eval(ScannedMeaning(col, t), env) == OfBool(ContainsFold(s, t.value))
  {
    Like.SubstringLikeExact(ToLower(s), ToLower(t.value));
  }

  lemma HeaderAgrees(col: Column, t: Term, env: Env)
    ensures var v := ColumnValue(col, env);
      Eval(HeaderMeaning(col, t), env) == OfBool(v.Json? && HeaderValueContains(v.headers, t.headerName, t.value))
  {
    var v := ColumnValue(col, env);
    if v.Json? {
      var pat := Needle(t);
      var name := t.headerName;
      forall other | other in v.headers && JsonHeaderPath(other) == JsonHeaderPath(name)
        ensures other == name
      {
        JsonHeaderPathInjective(other, name);
      }
      forall x: string
        ensures Like.Matches(ToLower(x), pat.s) <==> ContainsFold(x, t.value)
      {
        Like.SubstringLikeExact(ToLower(x), ToLower(t.value));
      }
      HeaderPathIsLookup(v, name, pat, t.value);
    }
  }

  lemma HeaderPathIsLookup(v: Value, name: string, pat: Value, value: string)
    requires v.Json? && pat.Text?
    requires forall other :: other in v.headers && JsonHeaderPath(other) == JsonHeaderPath(name) ==> other == name
    requires forall x: string :: Like.Matches(ToLower(x), pat.s) <==> ContainsFold(x, value)
    ensures HeaderPathMatches(v, Text(JsonHeaderPath(name)), pat) <==> HeaderValueContains(v.headers, name, value)
  {}

  // Captured requests

  predicate EventHeaderMatches(ev: EventRow, t: Term) {
    || (ev.requestHeaders.Json? && HeaderValueContains(ev.requestHeaders.headers, t.headerName, t.value))
    || (ev.responseHeaders.Json? && HeaderValueContains(ev.responseHeaders.headers, t.headerName, t.value))
  }

  /** A `header.<name>` condition also looks at the row's correlated events, and at nothing else. */
  lemma HeaderTermExact(t: Term, db: Db, r: CapturedRequest, json: string)
    requires t.field == Header
    ensures var row := StoredRequest(r, json);
      Eval(WhereMeaning(t).value, AtRequest(db, row)) ==
      OfBool(HeaderValueContains(r.headers, t.headerName, t.value) ||
             exists ev :: ev in db.events && Correlated(row, ev) && EventHeaderMatches(ev, t))
  {
    hide HeaderMeaning, HeaderValueContains, EventHeaderMatches;
    var row := StoredRequest(r, json);
    assert ColumnValue(CrHeaders, AtRequest(db, row)) == Json(json, r.headers);
    HeaderAgrees(CrHeaders, t, AtRequest(db, row));
    hide ColumnValue;
    forall ev: EventRow
      ensures Eval(Or(HeaderMeaning(ERequestHeaders, t), HeaderMeaning(EResponseHeaders, t)), AtRequest(db, row).(ev := Some(ev)))
        == OfBool(EventHeaderMatches(ev, t))
    {
      EventHeaderExact(t, AtRequest(db, row).(ev := Some(ev)));
    }
  }

  /** The terms on which both backends promise the same answer for this row. */
  predicate Comparable(t: Term, db: Db, row: RequestRow) {
    && t.field != Freeform && t.field != Headers
    && (t.field == Header ==> !exists ev :: ev in db.events && Correlated(row, ev))
  }

  lemma TermAgrees(t: Term, db: Db, r: CapturedRequest, json: string)
    requires WellFormed(t) && Comparable(t, db, StoredRequest(r, json))
    ensures var m := Meaning(Where, t);
      if m.Some? then Eval(m.value, AtRequest(db, StoredRequest(r, json))) == OfBool(MatchTerm(t, ToLower(t.value), r))
      else MatchTerm(t, ToLower(t.value), r)
  {
    hide IndexedMeaning, ScannedMeaning, MatchString, HeaderMeaning, HeaderValueContains, Contains;
    var env := AtRequest(db, StoredRequest(r, json));
    match t.field
    case Host => IndexedAgrees(CrHost, t, env, HostOf(r.headers));
    case Path => IndexedAgrees(CrPath, t, env, r.path);
    case Service => IndexedAgrees(CrService, t, env, r.service);
    case Body =>
      ScannedAgrees(CrBody, t, env, r.body);
      EmptyNeedle(ToLower(r.body));
    case Header => HeaderTermExact(t, db, r, json);
    case _ =>
  }

  lemma EmptyNeedle(s: string)
    ensures Contains(s, "")
  {
    assert OccursAt(s, "", 0);
  }

  lemma {:induction false} MeaningsAgree(q: Query, db: Db, r: CapturedRequest, json: string)
    requires AllWellFormed(q) && forall t :: t in q ==> Comparable(t, db, StoredRequest(r, json))
    ensures AllTrue(Meanings(Where, q), AtRequest(db, StoredRequest(r, json))) <==> Accepts(q, r)
  {
    hide WellFormed, Comparable, Meaning, MatchTerm, Eval, ToLower;
    if q != [] {
      TermAgrees(q[0], db, r, json);
      MeaningsAgree(q[1..], db, r, json);
      assert q == [q[0]] + q[1..];
    }
  }

  /** The emitted WHERE clause with its emitted arguments is true on the stored row
      exactly when the compiled predicate accepts the request. */
  lemma BackendsAgree(q: Query, db: Db, r: CapturedRequest, json: string)
    requires AllWellFormed(q) && forall t :: t in q ==> Comparable(t, db, StoredRequest(r, json))
    ensures |Args(Where, q)| == AllHoles(Clauses(Where, q))
    ensures AllTrue(BindAll(Clauses(Where, q), Args(Where, q)), AtRequest(db, StoredRequest(r, json))) <==> Accepts(q, r)
  {
    hide Meanings, AllTrue, Accepts, Comparable, WellFormed;
    ClausesBind(Where, q);
    MeaningsAgree(q, db, r, json);
  }

  /** With correlated events, a header term splits the backends exactly when only an event matches. */
  lemma HeaderBackendsAgreeIff(t: Term, db: Db, r: CapturedRequest, json: string)
    requires WellFormed(t) && t.field == Header
    ensures var row := StoredRequest(r, json);
      (Eval(Meaning(Where, t).value, AtRequest(db, row)) == True <==> MatchTerm(t, ToLower(t.value), r)) <==>
      (HeaderValueContains(r.headers, t.headerName, t.value) ||
       !exists ev :: ev in db.events && Correlated(row, ev) && EventHeaderMatches(ev, t))
  {
    hide HeaderMeaning, HeaderValueContains, EventHeaderMatches;
    HeaderTermExact(t, db, r, json);
  }

  /** It happens: a request without headers whose response carries the header. */
  lemma HeaderOnlyInEvent(r: CapturedRequest, ev: ResponseEvent, json: string, evJson: string)
    requires r.headers == map[] && ev.correlationID == r.correlationID && ev.headers == map["X-A" := ["v"]]
    ensures var t := Term(Header, "v", Exactly, false, false, "X-A", None, None);
      var row := StoredRequest(r, json);
      && WellFormed(t)
      && Eval(Meaning(Where, t).value, AtRequest(Db([row], [StoredResponse(ev, evJson)]), row)) == True
      && !MatchTerm(t, "v", r)
  {
    var t := Term(Header, "v", Exactly, false, false, "X-A", None, None);
    var row, x := StoredRequest(r, json), StoredResponse(ev, evJson);
    var db := Db([row], [x]);
    assert EventHeaderMatches(x, t) by {
      assert "v" in ev.headers["X-A"];
      assert OccursAt(ToLower("v"), ToLower("v"), 0);
      assert ContainsFold("v", "v");
    }
    assert x in db.events && Correlated(row, x);
    hide Eval, EventHeaderMatches;
    HeaderTermExact(t, db, r, json);
  }

  // Orphan events

  predicate OrphanComparable(t: Term) { t.field != Freeform && t.field != Headers }

  lemma EventColumns(env: Env)
    requires env.ev.Some?
    ensures ColumnValue(ERequestPath, env) == env.ev.value.requestPath
    ensures ColumnValue(ERequestBody, env) == env.ev.value.requestBody
    ensures ColumnValue(ERequestHeaders, env) == env.ev.value.requestHeaders
    ensures ColumnValue(EResponseBody, env) == env.ev.value.responseBody
    ensures ColumnValue(EResponseHeaders, env) == env.ev.value.responseHeaders
    ensures ColumnValue(EService, env) == Text(env.ev.value.service)
    ensures ColumnValue(ECorrelationID, env) == Text(env.ev.value.correlationID)
    ensures ColumnValue(EStatus, env) == env.ev.value.status
  {}

  /** A condition on either header column of an event row. */
  lemma EventHeaderExact(t: Term, env: Env)
    requires env.ev.Some?
    ensures Eval(Or(HeaderMeaning(ERequestHeaders, t), HeaderMeaning(EResponseHeaders, t)), env) ==
      OfBool(EventHeaderMatches(env.ev.value, t))
  {
    hide HeaderMeaning, HeaderValueContains, ColumnValue;
    EventColumns(env);
    HeaderAgrees(ERequestHeaders, t, env);
    HeaderAgrees(EResponseHeaders, t, env);
  }

  lemma ResponseStatusAgrees(t: Term, env: Env, ev: ResponseEvent, json: string)
    requires WellFormed(t) && t.field == Status && env.ev == Some(StoredResponse(ev, json))
    ensures Eval(OrphanMeaning(t).value, env) == OfBool(StatusMatches(t.status.value, ev.status))
  {
    assert ColumnValue(EStatus, env) == Int(ev.status);
  }

  lemma ResponsePositive(t: Term, db: Db, ev: ResponseEvent, json: string)
    requires WellFormed(t) && OrphanComparable(t)
    ensures var m := OrphanMeaning(t);
      if m.Some? then Eval(m.value, AtEvent(db, StoredResponse(ev, json))) == OfBool(EvaluateResponse(t, ev))
      else !AppliesToOrphan(t)
  {
    hide IndexedMeaning, MatchString, HeaderMeaning, HeaderValueContains, StatusMatches, StatusMeaning, ColumnValue;
    var env := AtEvent(db, StoredResponse(ev, json));
    match t.field {
      case Service =>
        EventColumns(env);
        hide Eval;
        IndexedAgrees(EService, t, env, ev.service);
      case Header =>
        hide Eval;
        EventHeaderExact(t, env);
      case Status =>
        hide Eval;
        ResponseStatusAgrees(t, env, ev, json);
      case CorrelationID =>
        EventColumns(env);
      case _ =>
    }
  }

  lemma ResponseTermAgrees(t: Term, db: Db, ev: ResponseEvent, json: string)
    requires WellFormed(t) && OrphanComparable(t)
    ensures var m := Meaning(Orphan, t);
      if m.Some? then Eval(m.value, AtEvent(db, StoredResponse(ev, json))) == OfBool(MatchResponseTerm(t, ev))
      else MatchResponseTerm(t, ev)
  {
    OrphanClause(t);
    hide OrphanMeaning, EvaluateResponse;
    ResponsePositive(t, db, ev, json);
  }

  lemma OrphanClause(t: Term)
    requires WellFormed(t)
    ensures OrphanMeaning(t).Some? <==> AppliesToOrphan(t) || t.field == Status
  {}

  lemma {:induction false} ResponseOrphansAgree(q: Query, db: Db, ev: ResponseEvent, json: string)
    requires AllWellFormed(q) && forall t :: t in q ==> OrphanComparable(t)
    ensures AllTrue(Meanings(Orphan, q), AtEvent(db, StoredResponse(ev, json))) <==> MatchOrphanResponse(q, ev)
  {
    hide WellFormed, OrphanComparable, Meaning, MatchResponseTerm, Eval;
    if q != [] {
      ResponseTermAgrees(q[0], db, ev, json);
      ResponseOrphansAgree(q[1..], db, ev, json);
      assert q == [q[0]] + q[1..];
    }
  }

  lemma OutboundPositive(t: Term, db: Db, ev: OutboundEvent, reqJson: string, respJson: string)
    requires WellFormed(t) && OrphanComparable(t) && OrphanMeaning(t).Some?
    ensures Eval(OrphanMeaning(t).value, AtEvent(db, StoredOutbound(ev, reqJson, respJson))) ==
      OfBool(t.field != Status && EvaluateOutbound(t, ev))
  {
    hide IndexedMeaning, MatchString, HeaderMeaning, HeaderValueContains, StatusMeaning, ColumnValue;
    var env := AtEvent(db, StoredOutbound(ev, reqJson, respJson));
    match t.field {
      case Service =>
        EventColumns(env);
        hide Eval;
        IndexedAgrees(EService, t, env, ev.service);
      case Header =>
        hide Eval;
        EventHeaderExact(t, env);
      case CorrelationID =>
        EventColumns(env);
      case _ =>
    }
  }

  lemma OutboundTermExact(t: Term, db: Db, ev: OutboundEvent, reqJson: string, respJson: string)
    requires WellFormed(t) && OrphanComparable(t)
    ensures var m := Meaning(Orphan, t);
      var want := if t.field == Status then t.negated else MatchOutboundTerm(t, ev);
      if m.Some? then Eval(m.value, AtEvent(db, StoredOutbound(ev, reqJson, respJson))) == OfBool(want) else want
  {
    OrphanClause(t);
    hide OrphanMeaning, EvaluateOutbound;
    if OrphanMeaning(t).Some? { OutboundPositive(t, db, ev, reqJson, respJson); }
  }

  /** Every term other than status accepts the event. */
  predicate OthersMatch(q: Query, ev: OutboundEvent) {
    forall t :: t in q && t.field != Status ==> MatchOutboundTerm(t, ev)
  }

  lemma {:induction false} OutboundSqlExact(q: Query, db: Db, ev: OutboundEvent, reqJson: string, respJson: string)
    requires AllWellFormed(q) && forall t :: t in q ==> OrphanComparable(t)
    ensures AllTrue(Meanings(Orphan, q), AtEvent(db, StoredOutbound(ev, reqJson, respJson))) <==>
      OthersMatch(q, ev) && forall t :: t in q && t.field == Status ==> t.negated
  {
    hide WellFormed, OrphanComparable, Meaning, MatchOutboundTerm, Eval;
    if q != [] {
      OutboundTermExact(q[0], db, ev, reqJson, respJson);
      OutboundSqlExact(q[1..], db, ev, reqJson, respJson);
      assert q == [q[0]] + q[1..];
    }
  }

  /** For an outbound orphan the backends part ways exactly on a search whose status
      terms are all negated and whose other terms match: SQL keeps it, memory drops it. */
  lemma OutboundOrphansAgreeIff(q: Query, db: Db, ev: OutboundEvent, reqJson: string, respJson: string)
    requires AllWellFormed(q) && forall t :: t in q ==> OrphanComparable(t)
    ensures
      (AllTrue(Meanings(Orphan, q), AtEvent(db, StoredOutbound(ev, reqJson, respJson))) <==> MatchOrphanOutbound(q, ev)) <==>
      !(OthersMatch(q, ev) && (exists t :: t in q && t.field == Status) && (forall t :: t in q && t.field == Status ==> t.negated))
  {
    hide Meanings, AllTrue, EvaluateOutbound, WellFormed;
    OutboundSqlExact(q, db, ev, reqJson, respJson);
  }

  /** `-status:200` is such a search. */
  lemma NegatedStatusSplitsOutbound(db: Db, ev: OutboundEvent, reqJson: string, respJson: string)
    ensures var q := [Term(Status, "200", Exactly, false, true, "", Some(Exact(200)), None)];
      AllTrue(Meanings(Orphan, q), AtEvent(db, StoredOutbound(ev, reqJson, respJson))) && !MatchOrphanOutbound(q, ev)
  {
    hide Meanings, AllTrue;
    OutboundSqlExact([Term(Status, "200", Exactly, false, true, "", Some(Exact(200)), None)], db, ev, reqJson, respJson);
  }
}
