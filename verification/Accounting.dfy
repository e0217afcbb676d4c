/** With no filter, every record in the ring is visible exactly once. */
module Accounting {
  import opened Strings
  import opened Capture
  import opened Inspect
  import opened Rows
  import opened MemoryReader

  const NO_FILTER := InspectQuery(None, None, [])

  function Listing(all: seq<Record>): seq<RootRow> { Matching(all, NO_FILTER) }

  /** The record has a row of its own. */
  predicate HasRow(all: seq<Record>, r: Record, kind: Kind) {
    exists x :: x in Listing(all) && x.id == r.Id() && x.kind == kind
  }

  function EventsWith(all: seq<Record>, cid: string): set<int> {
    set j | 0 <= j < |all| && !all[j].Request? && all[j].CorrelationID() == cid
  }

  lemma {:induction false} EventCountIsCardinality(all: seq<Record>, cid: string)
    ensures EventCount(all, cid) == |EventsWith(all, cid)|
  {
    if all == [] {
      assert EventsWith(all, cid) == {};
    } else {
      var n := |all| - 1;
      EventCountIsCardinality(all[..n], cid);
      var before := EventsWith(all[..n], cid);
      if !all[n].Request? && all[n].CorrelationID() == cid {
        assert EventsWith(all, cid) == before + {n};
      } else {
        assert EventsWith(all, cid) == before;
      }
    }
  }

  lemma ListedWithoutFilter(all: seq<Record>, r: Record)
    ensures Listed(all, NO_FILTER, r) <==> r.Request? || IsOrphan(all, r)
  {}

  lemma ListingMembers(all: seq<Record>)
    ensures forall x :: x in Listing(all) <==>
      exists i :: 0 <= i < |all| && (all[i].Request? || IsOrphan(all, all[i])) && RowOf(all, all[i]) == x
  {
    hide RowOf, IsOrphan, Listed;
    var rows := Emitted(all, NO_FILTER, |all|);
    EmittedMembers(all, NO_FILTER, |all|);
    SortKeeps(rows);
    forall x
      ensures x in Listing(all) <==> x in rows
    {
      assert x in multiset(Listing(all)) <==> x in multiset(rows);
    }
    forall i | 0 <= i < |all|
      ensures Listed(all, NO_FILTER, all[i]) <==> all[i].Request? || IsOrphan(all, all[i])
    {
      ListedWithoutFilter(all, all[i]);
    }
  }

  lemma SameIdSameRecord(all: seq<Record>, i: int, x: RootRow) returns (j: int)
    requires DistinctRecords(all) && 0 <= i < |all| && x in Listing(all) && x.id == all[i].Id()
    ensures j == i && (all[i].Request? || IsOrphan(all, all[i])) && x == RowOf(all, all[i])
  {
    hide IsOrphan, RowOf, Listing;
    ListingMembers(all);
    j :| 0 <= j < |all| && (all[j].Request? || IsOrphan(all, all[j])) && RowOf(all, all[j]) == x;
    RowKey(all, all[j]);
  }

  /** A request has a request row, an orphan has an orphan row of its kind, and a correlated
      event has no row: it is counted by every request row with its correlation id. */
  lemma EveryRecordAccountedFor(all: seq<Record>, i: int)
    requires DistinctRecords(all) && 0 <= i < |all|
    ensures var r := all[i];
      && (HasRow(all, r, RequestRoot) <==> r.Request?)
      && (HasRow(all, r, OrphanResponse) <==> r.Response? && !HasRequest(all, r.CorrelationID()))
      && (HasRow(all, r, OrphanOutbound) <==> r.Outbound? && !HasRequest(all, r.CorrelationID()))
      && (!r.Request? && HasRequest(all, r.CorrelationID()) ==>
            && (forall x :: x in Listing(all) ==> x.id != r.Id())
            && (exists x :: x in Listing(all) && x.kind == RequestRoot && x.correlationID == r.CorrelationID())
            && i in EventsWith(all, r.CorrelationID()))
  {
    hide Listing, Emitted;
    var r := all[i];
    RowKey(all, r);
    ListingMembers(all);
    forall x | x in Listing(all) && x.id == r.Id()
      ensures (r.Request? || IsOrphan(all, r)) && x == RowOf(all, r)
    {
      var _ := SameIdSameRecord(all, i, x);
    }
    if r.Request? || IsOrphan(all, r) {
      assert RowOf(all, r) in Listing(all);
    } else {
      var s :| s in all && s.Request? && s.CorrelationID() == r.CorrelationID();
      var k :| 0 <= k < |all| && all[k] == s;
      assert RowOf(all, all[k]) in Listing(all);
    }
  }

  /** Every request row counts exactly the events of its correlation id. */
  lemma RequestRowsCountEvents(all: seq<Record>, x: RootRow)
    requires x in Listing(all) && x.kind == RequestRoot
    ensures x.eventCount == Some(|EventsWith(all, x.correlationID)|)
    ensures x.hasEvents == Some(EventsWith(all, x.correlationID) != {})
  {
    hide Listing;
    ListingMembers(all);
    var j :| 0 <= j < |all| && (all[j].Request? || IsOrphan(all, all[j])) && RowOf(all, all[j]) == x;
    EventCountIsCardinality(all, x.correlationID);
  }

  // Orphan gauges

  function CountKind(rows: seq<RootRow>, kind: Kind): nat {
    if rows == [] then 0
    else CountKind(rows[..|rows| - 1], kind) + (if rows[|rows| - 1].kind == kind then 1 else 0)
  }

  /** OrphanCounts over a snapshot: the numbers of orphan rows the listing emits. */
  method OrphanCounts(all: seq<Record>) returns (response: nat, outbound: nat)
    ensures response == CountKind(Emitted(all, NO_FILTER, |all|), OrphanResponse)
    ensures outbound == CountKind(Emitted(all, NO_FILTER, |all|), OrphanOutbound)
  {
    hide HasRequest, EventCount, Emitted, CountKind, Listed;
    var requestCorrs := RequestCorrelations(all);
    response, outbound := 0, 0;
    NothingCounted(all);
    for i := 0 to |all|
      invariant response == CountKind(Emitted(all, NO_FILTER, i), OrphanResponse)
      invariant outbound == CountKind(Emitted(all, NO_FILTER, i), OrphanOutbound)
    {
      CountStep(all, i, OrphanResponse);
      CountStep(all, i, OrphanOutbound);
      if all[i].CorrelationID() in requestCorrs {
        continue;
      }
      match all[i] {
        case Response(_) => response := response + 1;
        case Outbound(_) => outbound := outbound + 1;
        case Request(_) =>
      }
    }
  }

  lemma NothingCounted(all: seq<Record>)
    ensures CountKind(Emitted(all, NO_FILTER, 0), OrphanResponse) == CountKind(Emitted(all, NO_FILTER, 0), OrphanOutbound) == 0
  {}

  function KindOf(r: Record): Kind {
    match r
    case Request(_) => RequestRoot
    case Response(_) => OrphanResponse
    case Outbound(_) => OrphanOutbound
  }

  lemma CountStep(all: seq<Record>, i: nat, kind: Kind)
    requires i < |all|
    ensures var more := if (all[i].Request? || IsOrphan(all, all[i])) && KindOf(all[i]) == kind then 1 else 0;
      CountKind(Emitted(all, NO_FILTER, i + 1), kind) == CountKind(Emitted(all, NO_FILTER, i), kind) + more
  {
    ListedWithoutFilter(all, all[i]);
    hide Listed, IsOrphan;
    var rows := Emitted(all, NO_FILTER, i);
    if Listed(all, NO_FILTER, all[i]) {
      assert (rows + [RowOf(all, all[i])])[..|rows|] == rows;
    } else {
      assert rows + [] == rows;
    }
  }
}
