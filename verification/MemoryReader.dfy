/** Listing the ring: which records become rows, and the page that is returned. */
module MemoryReader {
  import opened Strings
  import opened Capture
  import opened SearchQuery
  import opened Inspect
  import opened Rows
  import opened CompileSql
  import opened CompilePredicate

  predicate HasRequest(all: seq<Record>, cid: string) {
    exists r :: r in all && r.Request? && r.CorrelationID() == cid
  }

  /** Number of response and outbound events with the correlation id. */
  function EventCount(all: seq<Record>, cid: string): nat {
    if all == [] then 0
    else
      var last := all[|all| - 1];
      EventCount(all[..|all| - 1], cid) + (if !last.Request? && last.CorrelationID() == cid then 1 else 0)
  }

  predicate IsOrphan(all: seq<Record>, r: Record) {
    !r.Request? && !HasRequest(all, r.CorrelationID())
  }

  /** Whether a record of the snapshot is listed. */
  predicate Listed(all: seq<Record>, q: InspectQuery, r: Record)
    requires AllWellFormed(q.query)
  {
    InWindow(q, r.Timestamp()) &&
    match r
    case Request(v) => Accepts(q.query, v)
    case Response(v) => !HasRequestOnlyTerm(q.query) && IsOrphan(all, r) && MatchOrphanResponse(q.query, v)
    case Outbound(v) => !HasRequestOnlyTerm(q.query) && IsOrphan(all, r) && MatchOrphanOutbound(q.query, v)
  }

  function RowOf(all: seq<Record>, r: Record): RootRow {
    match r
    case Request(v) =>
      var n := EventCount(all, v.correlationID);
      RootRow(v.id, RequestRoot, v.timestamp, v.service, v.verb, v.path, v.correlationID, v.sourceIP, Some(n), Some(n > 0), None)
    case Response(v) =>
      RootRow(v.id, OrphanResponse, v.timestamp, v.service, "", "", v.correlationID, "", None, None, Some(v.status))
    case Outbound(v) =>
      RootRow(v.id, OrphanOutbound, v.timestamp, v.service, "", "", v.correlationID, "", None, None, None)
  }

  /** The rows of the first `k` snapshot records, in snapshot order. */
  function Emitted(all: seq<Record>, q: InspectQuery, k: nat): seq<RootRow>
    requires AllWellFormed(q.query) && k <= |all|
  {
    if k == 0 then []
    else Emitted(all, q, k - 1) + (if Listed(all, q, all[k - 1]) then [RowOf(all, all[k - 1])] else [])
  }

  /** All matching rows in listing order. */
  function Matching(all: seq<Record>, q: InspectQuery): seq<RootRow>
    requires AllWellFormed(q.query)
  {
    Sort(Emitted(all, q, |all|))
  }

  // The passes over the snapshot

  method RequestCorrelations(all: seq<Record>) returns (corrs: set<string>)
    ensures forall cid :: cid in corrs <==> HasRequest(all, cid)
  {
    corrs := {};
    for i := 0 to |all|
      invariant forall cid :: cid in corrs <==> HasRequest(all[..i], cid)
    {
      assert all[..i + 1] == all[..i] + [all[i]];
      if all[i].Request? {
        corrs := corrs + {all[i].CorrelationID()};
      }
    }
    assert all[..|all|] == all;
  }

  /** The eventCounts map: a missing key reads as zero. */
  method CountEvents(all: seq<Record>) returns (counts: map<string, nat>)
    ensures forall cid: string :: (if cid in counts then counts[cid] else 0) == EventCount(all, cid)
  {
    counts := map[];
    for i := 0 to |all|
      invariant forall cid: string :: (if cid in counts then counts[cid] else 0) == EventCount(all[..i], cid)
    {
      assert all[..i + 1][..i] == all[..i];
      if !all[i].Request? {
        var cid := all[i].CorrelationID();
        counts := counts[cid := (if cid in counts then counts[cid] else 0) + 1];
      }
    }
    assert all[..|all|] == all;
  }

  /** ReadRoots over a snapshot of the ring. */
  method ReadRoots(all: seq<Record>, q: InspectQuery, limit: nat, cursor: Option<Cursor>)
    returns (page: seq<RootRow>, next: Option<Cursor>)
    requires AllWellFormed(q.query) && limit >= 1
    ensures page == FirstPage(After(Matching(all, q), cursor), limit).0
    ensures next == FirstPage(After(Matching(all, q), cursor), limit).1
  {
    var candidates := EmitRows(all, q);
    candidates := SortRows(candidates);
    page, next := CutPage(candidates, limit, cursor);
  }

  method EmitRows(all: seq<Record>, q: InspectQuery) returns (candidates: seq<RootRow>)
    requires AllWellFormed(q.query)
    ensures candidates == Emitted(all, q, |all|)
  {
    hide HasRequest, EventCount, Accepts, MatchOrphanResponse, MatchOrphanOutbound, WellFormed;
    var requestCorrs := RequestCorrelations(all);
    var eventCounts := CountEvents(all);
    var includeOrphans := !HasRequestOnlyTerm(q.query);
    var matchRequest := CompilePredicate.Compile(q.query);
    candidates := [];
    for i := 0 to |all|
      invariant candidates == Emitted(all, q, i)
    {
      var r := all[i];
      var ts := r.Timestamp();
      if q.since.Some? && ts < q.since.value {
        continue;
      }
      if q.until.Some? && !(ts < q.until.value) {
        continue;
      }
      match r {
        case Request(v) =>
          if matchRequest(v) {
            var ec := if v.correlationID in eventCounts then eventCounts[v.correlationID] else 0;
            candidates := candidates + [RootRow(v.id, RequestRoot, v.timestamp, v.service, v.verb, v.path,
              v.correlationID, v.sourceIP, Some(ec), Some(ec > 0), None)];
          }
        case Response(v) =>
          if includeOrphans && v.correlationID !in requestCorrs && MatchOrphanResponse(q.query, v) {
            candidates := candidates + [RootRow(v.id, OrphanResponse, v.timestamp, v.service, "", "",
              v.correlationID, "", None, None, Some(v.status))];
          }
        case Outbound(v) =>
          if includeOrphans && v.correlationID !in requestCorrs && MatchOrphanOutbound(q.query, v) {
            candidates := candidates + [RootRow(v.id, OrphanOutbound, v.timestamp, v.service, "", "",
              v.correlationID, "", None, None, None)];
          }
      }
    }
  }

  // Facts about the emitted rows

  predicate DistinctRecords(all: seq<Record>) {
    forall i, j :: 0 <= i < j < |all| ==> all[i].Id() != all[j].Id()
  }

  /** Each emitted row comes from a listed record of the prefix, and each of those is emitted. */
  lemma {:induction false} EmittedMembers(all: seq<Record>, q: InspectQuery, k: nat)
    requires AllWellFormed(q.query) && k <= |all|
    ensures forall x :: x in Emitted(all, q, k) <==>
      exists i :: 0 <= i < k && Listed(all, q, all[i]) && RowOf(all, all[i]) == x
  {
    hide Listed, RowOf, WellFormed;
    if k > 0 {
      EmittedMembers(all, q, k - 1);
      var rows := Emitted(all, q, k - 1);
      var last := if Listed(all, q, all[k - 1]) then [RowOf(all, all[k - 1])] else [];
      assert forall x :: x in rows + last <==> x in rows || x in last;
    }
  }

  lemma RowKey(all: seq<Record>, r: Record)
    ensures RowOf(all, r).id == r.Id() && RowOf(all, r).timestamp == r.Timestamp()
  {}

  lemma {:induction false} EmittedDistinct(all: seq<Record>, q: InspectQuery, k: nat)
    requires AllWellFormed(q.query) && k <= |all| && DistinctRecords(all)
    ensures DistinctIds(Emitted(all, q, k))
  {
    hide Listed, RowOf, WellFormed;
    if k > 0 {
      EmittedDistinct(all, q, k - 1);
      EmittedMembers(all, q, k - 1);
      var rows := Emitted(all, q, k - 1);
      RowKey(all, all[k - 1]);
      forall j | 0 <= j < |rows|
        ensures rows[j].id != all[k - 1].Id()
      {
        assert rows[j] in rows;
        var i :| 0 <= i < k - 1 && Listed(all, q, all[i]) && RowOf(all, all[i]) == rows[j];
        RowKey(all, all[i]);
      }
    }
  }

  /** The listing: strictly descending, and exactly the emitted rows. */
  lemma MatchingIsListing(all: seq<Record>, q: InspectQuery)
    requires AllWellFormed(q.query) && DistinctRecords(all)
    ensures Descending(Matching(all, q)) && multiset(Matching(all, q)) == multiset(Emitted(all, q, |all|))
    ensures DistinctIds(Emitted(all, q, |all|))
  {
    hide Emitted, Sort, WellFormed;
    EmittedDistinct(all, q, |all|);
    SortKeeps(Emitted(all, q, |all|));
    SortDescends(Emitted(all, q, |all|));
  }
}
