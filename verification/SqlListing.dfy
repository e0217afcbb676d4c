/** The rows the SQLite listing returns, page by page. */
module SqlListing {
  import opened Strings
  import opened Inspect
  import opened Rows
  import opened Sql
  import opened CompileSql
  import opened RootsQuery
  import opened RootsRows
  import opened Pagination
  import Base64
  import CursorCodec

  // Row shapes of the two arms

  /** COUNT(e.id) over the group of a request. */
  function EventTotal(events: seq<EventRow>, correlationID: string): nat {
    if events == [] then 0
    else EventTotal(events[1..], correlationID) + (if events[0].correlationID == correlationID then 1 else 0)
  }

  function OptionInt(v: Value): Option<int> { if v.Int? then Some(v.i) else None }

  function RequestRowOf(db: Db, r: RequestRow): RootRow {
    var n := EventTotal(db.events, r.correlationID);
    RootRow(r.id, RequestRoot, r.timestamp, r.service, r.verb, r.path, r.correlationID, r.sourceIP,
            Some(n), Some(n > 0), OptionInt(MaxStatus(db.events, r.correlationID)))
  }

  function OrphanRowOf(x: EventRow): RootRow {
    RootRow(x.id, if x.isResponse then OrphanResponse else OrphanOutbound, x.timestamp, x.service, "", "", x.correlationID, "",
            None, None, if x.isResponse then OptionInt(x.status) else None)
  }

  /** The request arm over the first `n` requests. */
  ghost function RequestArm(roots: Roots<Value>, db: Db, n: nat): seq<RootRow>
    requires n <= |db.requests|
  {
    if n == 0 then []
    else
      var r := db.requests[n - 1];
      RequestArm(roots, db, n - 1) + if RequestReturned(roots, db, r) then [RequestRowOf(db, r)] else []
  }

  ghost function OrphanArm(roots: Roots<Value>, db: Db, n: nat): seq<RootRow>
    requires n <= |db.events|
  {
    if n == 0 then []
    else
      var x := db.events[n - 1];
      OrphanArm(roots, db, n - 1) + if OrphanReturned(roots, db, x) then [OrphanRowOf(x)] else []
  }

  /** `requests UNION ALL orphans`. */
  ghost function UnionRows(roots: Roots<Value>, db: Db): seq<RootRow> {
    RequestArm(roots, db, |db.requests|) + OrphanArm(roots, db, |db.events|)
  }

  /** `ORDER BY timestamp DESC, id DESC`. */
  ghost function SqlRows(q: InspectQuery, cursor: Option<Cursor>, db: Db): seq<RootRow>
    requires AllWellFormed(q.query)
  {
    Sort(UnionRows(RootsMeaning(q, cursor), db))
  }

  /** What the page statement returns: its first `fetch` rows. */
  ghost function Fetched(s: Statement<Value>, db: Db): seq<RootRow>
    requires s.Page? && s.fetch.Int?
  {
    var rows := Sort(UnionRows(s.inner, db));
    if 0 <= s.fetch.i < |rows| then rows[..s.fetch.i] else rows
  }

  /** No id is used twice, in one table or in both. */
  predicate DistinctStored(db: Db) {
    UniqueIds(db) && forall r, x :: r in db.requests && x in db.events ==> r.id != x.id
  }

  // The cursor condition is the cursor filter

  lemma CursorOnRequest(q: InspectQuery, c: Option<Cursor>, db: Db, r: RequestRow)
    requires AllWellFormed(q.query)
    ensures RequestReturned(RootsMeaning(q, c), db, r) <==>
      RequestReturned(RootsMeaning(q, None), db, r) && AfterCursor(r.timestamp, r.id, c)
  {
    hide RequestReturned, RootsMeaning, HoldsForRequest;
    RequestArmExact(q, c, db, r);
    RequestArmExact(q, None, db, r);
  }

  lemma CursorOnOrphan(q: InspectQuery, c: Option<Cursor>, db: Db, x: EventRow)
    requires AllWellFormed(q.query)
    ensures OrphanReturned(RootsMeaning(q, c), db, x) <==>
      OrphanReturned(RootsMeaning(q, None), db, x) && AfterCursor(x.timestamp, x.id, c)
  {
    hide OrphanReturned, RootsMeaning, HoldsForOrphan;
    OrphanArmExact(q, c, db, x);
    OrphanArmExact(q, None, db, x);
  }

  lemma AfterOne(x: RootRow, c: Option<Cursor>)
    ensures After([x], c) == (if IsAfter(x, c) then [x] else []) && After([], c) == []
  {
    assert [x][1..] == [];
  }

  lemma {:induction false} RequestArmAfter(q: InspectQuery, c: Option<Cursor>, db: Db, n: nat)
    requires AllWellFormed(q.query) && n <= |db.requests|
    ensures RequestArm(RootsMeaning(q, c), db, n) == After(RequestArm(RootsMeaning(q, None), db, n), c)
  {
    hide RequestReturned, RootsMeaning, After, RequestRowOf;
    if n == 0 {
      AfterNothing([], c);
    } else {
      var r := db.requests[n - 1];
      RequestArmAfter(q, c, db, n - 1);
      CursorOnRequest(q, c, db, r);
      AfterOne(RequestRowOf(db, r), c);
      RequestKey(db, r);
      AfterAppend(RequestArm(RootsMeaning(q, None), db, n - 1),
        if RequestReturned(RootsMeaning(q, None), db, r) then [RequestRowOf(db, r)] else [], c);
    }
  }

  lemma RequestKey(db: Db, r: RequestRow)
    ensures RequestRowOf(db, r).id == r.id && RequestRowOf(db, r).timestamp == r.timestamp
  {}

  lemma {:induction false} OrphanArmAfter(q: InspectQuery, c: Option<Cursor>, db: Db, n: nat)
    requires AllWellFormed(q.query) && n <= |db.events|
    ensures OrphanArm(RootsMeaning(q, c), db, n) == After(OrphanArm(RootsMeaning(q, None), db, n), c)
  {
    hide OrphanReturned, RootsMeaning, After;
    if n == 0 {
      AfterNothing([], c);
    } else {
      var x := db.events[n - 1];
      OrphanArmAfter(q, c, db, n - 1);
      CursorOnOrphan(q, c, db, x);
      AfterOne(OrphanRowOf(x), c);
      AfterAppend(OrphanArm(RootsMeaning(q, None), db, n - 1),
        if OrphanReturned(RootsMeaning(q, None), db, x) then [OrphanRowOf(x)] else [], c);
    }
  }

  // Sorting and filtering commute

  lemma {:induction false} AfterCount(rows: seq<RootRow>, c: Option<Cursor>, x: RootRow)
    ensures multiset(After(rows, c))[x] == if IsAfter(x, c) then multiset(rows)[x] else 0
  {
    hide IsAfter;
    if rows != [] {
      AfterCount(rows[1..], c, x);
      assert rows == [rows[0]] + rows[1..];
    }
  }

  lemma AfterOfSorted(rows: seq<RootRow>, c: Option<Cursor>)
    requires DistinctIds(rows)
    ensures After(Sort(rows), c) == Sort(After(rows, c))
  {
    hide After, Sort, IsAfter, Precedes;
    SortKeeps(rows);
    SortDescends(rows);
    AfterKeepsOrder(Sort(rows), c);
    AfterKeepsOrder(rows, c);
    SortKeeps(After(rows, c));
    SortDescends(After(rows, c));
    forall x: RootRow
      ensures multiset(After(Sort(rows), c))[x] == multiset(After(rows, c))[x]
    {
      AfterCount(Sort(rows), c, x);
      AfterCount(rows, c, x);
    }
    DescendingUnique(After(Sort(rows), c), Sort(After(rows, c)));
  }

  // No row is returned twice

  lemma {:induction false} RequestArmMembers(roots: Roots<Value>, db: Db, n: nat)
    requires n <= |db.requests|
    ensures forall y :: y in RequestArm(roots, db, n) <==>
      exists i :: 0 <= i < n && RequestReturned(roots, db, db.requests[i]) && RequestRowOf(db, db.requests[i]) == y
  {
    hide RequestReturned, RequestRowOf;
    if n > 0 { RequestArmMembers(roots, db, n - 1); }
  }

  lemma {:induction false} OrphanArmMembers(roots: Roots<Value>, db: Db, n: nat)
    requires n <= |db.events|
    ensures forall y :: y in OrphanArm(roots, db, n) <==>
      exists i :: 0 <= i < n && OrphanReturned(roots, db, db.events[i]) && OrphanRowOf(db.events[i]) == y
  {
    hide OrphanReturned, OrphanRowOf;
    if n > 0 { OrphanArmMembers(roots, db, n - 1); }
  }

  lemma {:induction false} RequestArmDistinct(roots: Roots<Value>, db: Db, n: nat)
    requires UniqueIds(db) && n <= |db.requests|
    ensures DistinctIds(RequestArm(roots, db, n))
  {
    hide RequestReturned, RequestRowOf;
    if n > 0 {
      RequestArmDistinct(roots, db, n - 1);
      var kept, r := RequestArm(roots, db, n - 1), db.requests[n - 1];
      RequestKey(db, r);
      forall j | 0 <= j < |kept|
        ensures kept[j].id != r.id
      {
        RequestArmMembers(roots, db, n - 1);
        assert kept[j] in kept;
        var i :| 0 <= i < n - 1 && RequestReturned(roots, db, db.requests[i]) && RequestRowOf(db, db.requests[i]) == kept[j];
        RequestKey(db, db.requests[i]);
      }
    }
  }

  lemma {:induction false} OrphanArmDistinct(roots: Roots<Value>, db: Db, n: nat)
    requires UniqueIds(db) && n <= |db.events|
    ensures DistinctIds(OrphanArm(roots, db, n))
  {
    hide OrphanReturned;
    if n > 0 {
      OrphanArmDistinct(roots, db, n - 1);
      var kept, x := OrphanArm(roots, db, n - 1), db.events[n - 1];
      forall j | 0 <= j < |kept|
        ensures kept[j].id != x.id
      {
        OrphanArmMembers(roots, db, n - 1);
        assert kept[j] in kept;
        var i :| 0 <= i < n - 1 && OrphanReturned(roots, db, db.events[i]) && OrphanRowOf(db.events[i]) == kept[j];
      }
    }
  }

  lemma UnionRowsDistinct(roots: Roots<Value>, db: Db)
    requires DistinctStored(db)
    ensures DistinctIds(UnionRows(roots, db))
  {
    hide RequestReturned, OrphanReturned, RequestRowOf, RequestArm, OrphanArm, UniqueIds;
    var a, b := RequestArm(roots, db, |db.requests|), OrphanArm(roots, db, |db.events|);
    RequestArmDistinct(roots, db, |db.requests|);
    OrphanArmDistinct(roots, db, |db.events|);
    forall i, j | 0 <= i < |a| && 0 <= j < |b|
      ensures a[i].id != b[j].id
    {
      RequestArmMembers(roots, db, |db.requests|);
      OrphanArmMembers(roots, db, |db.events|);
      assert a[i] in a && b[j] in b;
      var m :| 0 <= m < |db.requests| && RequestReturned(roots, db, db.requests[m]) && RequestRowOf(db, db.requests[m]) == a[i];
      var k :| 0 <= k < |db.events| && OrphanReturned(roots, db, db.events[k]) && OrphanRowOf(db.events[k]) == b[j];
      RequestKey(db, db.requests[m]);
      assert db.requests[m].id != db.events[k].id;
    }
  }

  /** The statement with a cursor returns exactly the rows of the statement without one that
      come after the cursor, in the same order. */
  lemma SqlCursorIsAfter(q: InspectQuery, c: Option<Cursor>, db: Db)
    requires AllWellFormed(q.query) && DistinctStored(db)
    ensures SqlRows(q, c, db) == After(SqlRows(q, None, db), c)
  {
    hide RootsMeaning, RequestArm, OrphanArm, After, Sort, DistinctStored, DistinctIds;
    var all := RootsMeaning(q, None);
    RequestArmAfter(q, c, db, |db.requests|);
    OrphanArmAfter(q, c, db, |db.events|);
    AfterAppend(RequestArm(all, db, |db.requests|), OrphanArm(all, db, |db.events|), c);
    UnionRowsDistinct(all, db);
    AfterOfSorted(UnionRows(all, db), c);
  }

  /** SQLiteSink.ReadRoots: the page cut from the limit + 1 fetched rows. */
  ghost function SqlPage(q: InspectQuery, limit: nat, cursor: Option<Cursor>, db: Db): (seq<RootRow>, Option<Cursor>)
    requires AllWellFormed(q.query) && limit >= 1
  {
    FirstPage(Fetched(Page(RootsMeaning(q, cursor), Int(limit + 1)), db), limit)
  }

  /** Fetching one row more than a page is enough: page and cursor are those of everything
      the search matches after the cursor. */
  lemma SqlPageExact(q: InspectQuery, limit: nat, cursor: Option<Cursor>, db: Db)
    requires AllWellFormed(q.query) && DistinctStored(db) && limit >= 1
    ensures SqlPage(q, limit, cursor, db) == FirstPage(After(SqlRows(q, None, db), cursor), limit)
  {
    hide RootsMeaning, UnionRows, Sort, After, DistinctStored;
    SqlCursorIsAfter(q, cursor, db);
    var rows := SqlRows(q, cursor, db);
    if |rows| > limit + 1 {
      assert rows[..limit + 1][..limit] == rows[..limit];
    }
  }

  /** What a client collects from SQLite, sending the encoded cursor of each page back. */
  ghost predicate SqlCollects(q: InspectQuery, limit: nat, cursor: Option<Cursor>, db: Db, pages: seq<seq<RootRow>>)
    requires AllWellFormed(q.query) && limit >= 1
    decreases pages
  {
    pages != [] &&
    var (page, next) := SqlPage(q, limit, cursor, db);
    pages[0] == page &&
    if next.None? then |pages| == 1
    else
      Base64.Bytes(CursorCodec.Raw(next.value)) &&
      var sent := CursorCodec.Decode(CursorCodec.Encode(next.value));
      sent.Ok? && SqlCollects(q, limit, Some(sent.value), db, pages[1..])
  }

  lemma {:induction false} SqlCollectsRows(q: InspectQuery, limit: nat, cursor: Option<Cursor>, db: Db, pages: seq<seq<RootRow>>)
    requires AllWellFormed(q.query) && DistinctStored(db) && limit >= 1
    ensures SqlCollects(q, limit, cursor, db, pages) <==> Collects(SqlRows(q, None, db), limit, cursor, pages)
    decreases pages
  {
    hide SqlPage, SqlRows, After, FirstPage, CursorCodec.Encode, CursorCodec.Decode, Base64.Bytes, CursorCodec.Raw;
    SqlPageExact(q, limit, cursor, db);
    if pages != [] {
      var next := SqlPage(q, limit, cursor, db).1;
      if next.Some? && Base64.Bytes(CursorCodec.Raw(next.value)) {
        var sent := CursorCodec.Decode(CursorCodec.Encode(next.value));
        if sent.Ok? { SqlCollectsRows(q, limit, Some(sent.value), db, pages[1..]); }
      }
    }
  }

  /** On a fixed database exactly one sequence of pages can be collected: every returned
      request and orphan once, strictly descending, in max(1, ceil(n / limit)) pages. */
  lemma SqlPaginationComplete(q: InspectQuery, limit: nat, db: Db, pages: seq<seq<RootRow>>)
    requires AllWellFormed(q.query) && DistinctStored(db) && limit >= 1
    requires forall x :: x in SqlRows(q, None, db) ==> WireSafe(x)
    ensures SqlCollects(q, limit, None, db, pages) <==> pages == Chunks(SqlRows(q, None, db), limit)
    ensures SqlCollects(q, limit, None, db, pages) ==>
      && Descending(Concat(pages))
      && multiset(Concat(pages)) == multiset(UnionRows(RootsMeaning(q, None), db))
      && |pages| == (var n := |UnionRows(RootsMeaning(q, None), db)|; if n == 0 then 1 else (n + limit - 1) / limit)
  {
    hide RootsMeaning, UnionRows, Sort, Collects, SqlCollects, Chunks, Concat, WireSafe, Descending, DistinctStored;
    var all := UnionRows(RootsMeaning(q, None), db);
    var rows := SqlRows(q, None, db);
    UnionRowsDistinct(RootsMeaning(q, None), db);
    SortKeeps(all);
    SortDescends(all);
    SqlCollectsRows(q, limit, None, db, pages);
    CollectsChunks(rows, limit, 0, pages);
    assert rows[0..] == rows;
    ChunksCover(rows, limit);
    ChunksCount(rows, limit);
  }
}
