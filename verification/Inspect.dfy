/** The parameters of a listing: time bounds, a parsed search and a pagination cursor. */
module Inspect {
  import opened Strings
  import opened SearchQuery

  /** A pagination position in (timestamp DESC, id DESC) order. */
  datatype Cursor = Cursor(timestamp: int, id: string)

  datatype InspectQuery = InspectQuery(since: Option<int>, until: Option<int>, query: Query)

  predicate InWindow(q: InspectQuery, timestamp: int) {
    (q.since.Some? ==> q.since.value <= timestamp) && (q.until.Some? ==> timestamp < q.until.value)
  }

  /** The row sorts strictly after the cursor in descending order. */
  predicate AfterCursor(timestamp: int, id: string, cursor: Option<Cursor>) {
    cursor.Some? ==>
      timestamp < cursor.value.timestamp || (timestamp == cursor.value.timestamp && Less(id, cursor.value.id))
  }
}
