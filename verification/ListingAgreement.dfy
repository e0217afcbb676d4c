/** The SQL listing against the in-memory listing of the same records. */
module ListingAgreement {
  import opened Strings
  import opened Capture
  import opened SearchQuery
  import opened Inspect
  import opened Sql
  import opened CompileSql
  import opened CompilePredicate
  import opened RootsQuery
  import opened RootsRows
  import opened BackendAgreement
  import opened MemoryReader

  predicate IsEvent(r: Record) { !r.Request? }

  /** The row an event is written to. */
  predicate StoredAs(r: Record, x: EventRow, json: string, json2: string) {
    match r
    case Request(_) => false
    case Response(v) => x == StoredResponse(v, json)
    case Outbound(v) => x == StoredOutbound(v, json, json2)
  }

  ghost predicate HasRow(db: Db, r: Record) {
    exists x, json, json2 :: x in db.events && StoredAs(r, x, json, json2)
  }

  ghost predicate HasRecord(all: seq<Record>, x: EventRow) {
    exists r, json, json2 :: r in all && StoredAs(r, x, json, json2)
  }

  /** The events table holds the events of the snapshot and nothing else. */
  ghost predicate SameEvents(db: Db, all: seq<Record>) {
    && (forall r :: r in all && IsEvent(r) ==> HasRow(db, r))
    && (forall x :: x in db.events ==> HasRecord(all, x))
  }

  /** The greatest response status of a correlation id in the snapshot. */
  function TopStatus(all: seq<Record>, cid: string): Option<int> {
    if all == [] then None
    else
      var rest := TopStatus(all[1..], cid);
      match all[0]
      case Response(v) =>
        if v.correlationID == cid && (rest.None? || v.status >= rest.value) then Some(v.status) else rest
      case _ => rest
  }

  predicate HasTop(r: Record, cid: string) { r.Response? && r.CorrelationID() == cid }

  lemma {:induction false} TopStatusExact(all: seq<Record>, cid: string)
    ensures var m := TopStatus(all, cid);
      && (m.None? ==> forall r :: r in all ==> !HasTop(r, cid))
      && (m.Some? ==> exists v :: Response(v) in all && v.correlationID == cid && v.status == m.value)
      && (m.Some? ==> forall v :: Response(v) in all && v.correlationID == cid ==> v.status <= m.value)
  {
    if all != [] {
      TopStatusExact(all[1..], cid);
      assert all == [all[0]] + all[1..];
    }
  }

  /** Both stores aggregate the same status. */
  lemma SameStatus(db: Db, all: seq<Record>, cid: string)
    requires SameEvents(db, all)
    ensures var m, n := MaxStatus(db.events, cid), TopStatus(all, cid);
      (m.Int? <==> n.Some?) && (m.Int? ==> m.i == n.value)
  {
    hide MaxStatus, TopStatus, SameEvents;
    MaxStatusExact(db.events, cid);
    TopStatusExact(all, cid);
    var m, n := MaxStatus(db.events, cid), TopStatus(all, cid);
    if n.Some? {
      var v :| Response(v) in all && v.correlationID == cid && v.status == n.value;
      var x := RowOfResponse(db, all, v);
      assert HasStatus(x, cid);
    }
    if m.Int? {
      var x :| x in db.events && HasStatus(x, cid) && x.status == m;
      var v := ResponseOfRow(db, all, x);
      assert HasTop(Response(v), cid);
    }
  }

  lemma RowOfResponse(db: Db, all: seq<Record>, v: ResponseEvent) returns (x: EventRow)
    requires SameEvents(db, all) && Response(v) in all
    ensures x in db.events && x.correlationID == v.correlationID && x.isResponse && x.status == Int(v.status)
  {
    assert HasRow(db, Response(v));
    var y, json, json2 :| y in db.events && StoredAs(Response(v), y, json, json2);
    x := y;
  }

  lemma ResponseOfRow(db: Db, all: seq<Record>, x: EventRow) returns (v: ResponseEvent)
    requires SameEvents(db, all) && x in db.events && x.isResponse
    ensures Response(v) in all && x.correlationID == v.correlationID && x.status == Int(v.status)
  {
    assert HasRecord(all, x);
    var r, json, json2 :| r in all && StoredAs(r, x, json, json2);
    v := r.response;
  }

  /** Both stores see events for the same correlation ids. */
  lemma SameCorrelations(db: Db, all: seq<Record>, cid: string)
    requires SameEvents(db, all)
    ensures (exists x :: x in db.events && x.correlationID == cid) <==> EventCount(all, cid) > 0
  {
    hide EventCount, HasRow, HasRecord;
    CountIsExistence(all, cid);
    if EventCount(all, cid) > 0 {
      var r :| r in all && IsEvent(r) && r.CorrelationID() == cid;
      RowKeepsId(db, r);
    }
    if x :| x in db.events && x.correlationID == cid {
      RecordKeepsId(all, x);
    }
  }

  lemma RowKeepsId(db: Db, r: Record)
    requires HasRow(db, r)
    ensures exists x :: x in db.events && x.correlationID == r.CorrelationID()
  {
    var x, json, json2 :| x in db.events && StoredAs(r, x, json, json2);
    assert x.correlationID == r.CorrelationID();
  }

  lemma RecordKeepsId(all: seq<Record>, x: EventRow)
    requires HasRecord(all, x)
    ensures exists r :: r in all && IsEvent(r) && r.CorrelationID() == x.correlationID
  {
    var r, json, json2 :| r in all && StoredAs(r, x, json, json2);
    assert IsEvent(r) && r.CorrelationID() == x.correlationID;
  }

  lemma {:induction false} CountIsExistence(all: seq<Record>, cid: string)
    ensures EventCount(all, cid) > 0 <==> exists r :: r in all && IsEvent(r) && r.CorrelationID() == cid
  {
    if all != [] {
      var n := |all| - 1;
      CountIsExistence(all[..n], cid);
      assert all == all[..n] + [all[n]];
    }
  }

  /** What SQL asks of the correlated events and the ring's matcher does not. */
  predicate JoinTermHolds(t: Term, all: seq<Record>, cid: string)
    requires WellFormed(t)
  {
    match t.field
    case Status => TopStatus(all, cid).Some? && StatusMatches(t.status.value, TopStatus(all, cid).value) != t.negated
    case HasEvents => (t.hasEvents.value == (EventCount(all, cid) > 0)) != t.negated
    case _ => true
  }

  lemma TermHoldsIff(t: Term, db: Db, all: seq<Record>, r: CapturedRequest, json: string)
    requires WellFormed(t) && SameEvents(db, all) && Comparable(t, db, StoredRequest(r, json))
    ensures HoldsForRequest(t, db, StoredRequest(r, json)) <==>
      MatchTerm(t, ToLower(t.value), r) && JoinTermHolds(t, all, r.correlationID)
  {
    hide TopStatus, MaxStatus, EventCount, SameEvents, StatusMatches, ToLower;
    var row := StoredRequest(r, json);
    if t.field == Status {
      SameStatus(db, all, r.correlationID);
      StatusTermExact(t, db, row);
    } else if t.field == HasEvents {
      SameCorrelations(db, all, r.correlationID);
      EventTermExact(t, db, row);
    } else {
      hide EvaluateTerm;
      TermAgrees(t, db, r, json);
      NoHaving(t);
    }
  }

  lemma EventTermExact(t: Term, db: Db, r: RequestRow)
    requires WellFormed(t) && t.field == HasEvents
    ensures HoldsForRequest(t, db, r) <==>
      (t.hasEvents.value == (exists x :: x in db.events && x.correlationID == r.correlationID)) != t.negated
  {}

  lemma NoHaving(t: Term)
    requires WellFormed(t) && t.field != Status && t.field != HasEvents
    ensures Meaning(Having, t).None?
  {}

  /** The SQL request arm returns exactly the requests the ring lists whose events also
      satisfy the search's status and has_events terms. */
  lemma RequestArmAgainstRing(q: InspectQuery, db: Db, all: seq<Record>, r: CapturedRequest, json: string)
    requires AllWellFormed(q.query) && SameEvents(db, all) && StoredRequest(r, json) in db.requests
    requires forall t :: t in q.query ==> Comparable(t, db, StoredRequest(r, json))
    ensures RequestReturned(RootsMeaning(q, None), db, StoredRequest(r, json)) <==>
      Listed(all, q, Request(r)) && forall t :: t in q.query ==> JoinTermHolds(t, all, r.correlationID)
  {
    hide WellFormed, SameEvents, Comparable, HoldsForRequest, MatchTerm, JoinTermHolds, RequestReturned, RootsMeaning;
    RequestArmExact(q, None, db, StoredRequest(r, json));
    forall t | t in q.query
      ensures HoldsForRequest(t, db, StoredRequest(r, json)) <==>
        MatchTerm(t, ToLower(t.value), r) && JoinTermHolds(t, all, r.correlationID)
    {
      TermHoldsIff(t, db, all, r, json);
    }
  }

  /** So the two listings differ on a request exactly when the ring lists it and one of those
      terms fails. */
  lemma RequestListingsAgreeIff(q: InspectQuery, db: Db, all: seq<Record>, r: CapturedRequest, json: string)
    requires AllWellFormed(q.query) && SameEvents(db, all) && StoredRequest(r, json) in db.requests
    requires forall t :: t in q.query ==> Comparable(t, db, StoredRequest(r, json))
    ensures (RequestReturned(RootsMeaning(q, None), db, StoredRequest(r, json)) <==> Listed(all, q, Request(r))) <==>
      !(Listed(all, q, Request(r)) && exists t :: t in q.query && !JoinTermHolds(t, all, r.correlationID))
  {
    hide WellFormed, SameEvents, Comparable, JoinTermHolds, RequestReturned, RootsMeaning, Listed;
    RequestArmAgainstRing(q, db, all, r, json);
  }

  /** It happens: `status:200` and a request without a response. */
  lemma StatusOnlyInSql(r: CapturedRequest, json: string)
    ensures var t := Term(Status, "200", Exactly, false, false, "", Some(Exact(200)), None);
      var q, row := InspectQuery(None, None, [t]), StoredRequest(r, json);
      && AllWellFormed(q.query)
      && Listed([Request(r)], q, Request(r)) && !RequestReturned(RootsMeaning(q, None), Db([row], []), row)
  {
    var t := Term(Status, "200", Exactly, false, false, "", Some(Exact(200)), None);
    var q, row, db := InspectQuery(None, None, [t]), StoredRequest(r, json), Db([StoredRequest(r, json)], []);
    assert forall x :: x in q.query ==> x == t;
    assert [Request(r)][1..] == [] && TopStatus([Request(r)], r.correlationID) == None;
    assert t in q.query && !JoinTermHolds(t, [Request(r)], r.correlationID);
    hide JoinTermHolds, RequestReturned, RootsMeaning;
    RequestArmAgainstRing(q, db, [Request(r)], r, json);
  }

  // Orphan events

  predicate HasRequestRow(db: Db, cid: string) { exists r :: r in db.requests && r.correlationID == cid }

  /** Both stores have requests for the same correlation ids. */
  ghost predicate SameRequestIds(db: Db, all: seq<Record>) {
    forall cid: string :: HasRequestRow(db, cid) <==> HasRequest(all, cid)
  }

  lemma OrphanTermsHold(q: Query, db: Db, x: EventRow)
    requires AllWellFormed(q)
    ensures (forall t :: t in q ==> HoldsForOrphan(t, db, x)) <==> AllTrue(Meanings(Orphan, q), AtEvent(db, x))
  {
    hide Meaning, Meanings, WellFormed, Eval, AllTrue;
    AllMeaningsTrue(Orphan, q, AtEvent(db, x));
  }

  /** An event the search can return at all: in the window, without a request, and no term
      hides orphans. */
  predicate OrphanEligible(all: seq<Record>, q: InspectQuery, r: Record) {
    InWindow(q, r.Timestamp()) && !HasRequestOnlyTerm(q.query) && !HasRequest(all, r.CorrelationID())
  }

  lemma OrphanArmAgainstRing(q: InspectQuery, db: Db, all: seq<Record>, r: Record, x: EventRow)
    requires AllWellFormed(q.query) && SameRequestIds(db, all) && x in db.events
    requires x.correlationID == r.CorrelationID() && x.timestamp == r.Timestamp()
    ensures OrphanReturned(RootsMeaning(q, None), db, x) <==>
      OrphanEligible(all, q, r) && AllTrue(Meanings(Orphan, q.query), AtEvent(db, x))
  {
    hide OrphanReturned, RootsMeaning, Meanings, WellFormed, HoldsForOrphan, AllTrue, HasRequest, HasRequestOnlyTerm;
    OrphanArmExact(q, None, db, x);
    OrphanTermsHold(q.query, db, x);
    assert HasRequestRow(db, x.correlationID) <==> HasRequest(all, r.CorrelationID());
    assert (forall y :: y in db.requests ==> !Correlated(y, x)) <==> !HasRequestRow(db, x.correlationID);
  }

  /** On response orphans the two listings agree. */
  lemma ResponseListingsAgree(q: InspectQuery, db: Db, all: seq<Record>, v: ResponseEvent, json: string)
    requires AllWellFormed(q.query) && SameRequestIds(db, all) && StoredResponse(v, json) in db.events
    requires forall t :: t in q.query ==> OrphanComparable(t)
    ensures OrphanReturned(RootsMeaning(q, None), db, StoredResponse(v, json)) <==> Listed(all, q, Response(v))
  {
    hide OrphanReturned, RootsMeaning, Meanings, WellFormed, AllTrue, HasRequest, HasRequestOnlyTerm, SameRequestIds, MatchOrphanResponse;
    OrphanArmAgainstRing(q, db, all, Response(v), StoredResponse(v, json));
    ResponseOrphansAgree(q.query, db, v, json);
  }

  /** On an outbound orphan they differ exactly when it is eligible, its other terms match and
      the search has status terms, all negated. */
  lemma OutboundListingsAgreeIff(q: InspectQuery, db: Db, all: seq<Record>, v: OutboundEvent, reqJson: string, respJson: string)
    requires AllWellFormed(q.query) && SameRequestIds(db, all) && StoredOutbound(v, reqJson, respJson) in db.events
    requires forall t :: t in q.query ==> OrphanComparable(t)
    ensures (OrphanReturned(RootsMeaning(q, None), db, StoredOutbound(v, reqJson, respJson)) <==> Listed(all, q, Outbound(v))) <==>
      !(OrphanEligible(all, q, Outbound(v)) && OthersMatch(q.query, v) &&
        (exists t :: t in q.query && t.field == Status) && (forall t :: t in q.query && t.field == Status ==> t.negated))
  {
    hide OrphanReturned, RootsMeaning, Meanings, WellFormed, AllTrue, HasRequest, HasRequestOnlyTerm, SameRequestIds;
    hide MatchOrphanOutbound, OthersMatch;
    OrphanArmAgainstRing(q, db, all, Outbound(v), StoredOutbound(v, reqJson, respJson));
    OutboundOrphansAgreeIff(q.query, db, v, reqJson, respJson);
  }
}
