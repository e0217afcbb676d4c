/** Root rows, their (timestamp DESC, id DESC) order, and one page of them. */
module Rows {
  import opened Strings
  import opened Inspect

  datatype Kind = RequestRoot | OrphanResponse | OrphanOutbound

  datatype RootRow = RootRow(
    id: string,
    kind: Kind,
    timestamp: int,
    service: string,
    verb: string,
    path: string,
    correlationID: string,
    sourceIP: string,
    eventCount: Option<nat>,
    hasEvents: Option<bool>,
    status: Option<int>)

  /** `a` is listed before `b`. */
  predicate Precedes(a: RootRow, b: RootRow) {
    a.timestamp > b.timestamp || (a.timestamp == b.timestamp && Less(b.id, a.id))
  }

  predicate DistinctIds(rows: seq<RootRow>) {
    forall i, j :: 0 <= i < j < |rows| ==> rows[i].id != rows[j].id
  }

  predicate Descending(rows: seq<RootRow>) {
    forall i, j :: 0 <= i < j < |rows| ==> Precedes(rows[i], rows[j])
  }

  lemma PrecedesTransitive(a: RootRow, b: RootRow, c: RootRow)
    requires Precedes(a, b) && Precedes(b, c)
    ensures Precedes(a, c)
  {
    if a.timestamp == b.timestamp == c.timestamp { LessTransitive(c.id, b.id, a.id); }
  }

  lemma PrecedesTotal(a: RootRow, b: RootRow)
    requires a.id != b.id
    ensures Precedes(a, b) || Precedes(b, a)
  {
    LessTotal(a.id, b.id);
  }

  lemma PrecedesAsymmetric(a: RootRow, b: RootRow)
    ensures !(Precedes(a, b) && Precedes(b, a))
  {
    if Precedes(a, b) && Precedes(b, a) {
      LessTransitive(a.id, b.id, a.id);
      LessIrreflexive(a.id);
    }
  }

  // Sorting. On rows with distinct ids the result is the only descending arrangement.

  function Insert(rows: seq<RootRow>, x: RootRow): seq<RootRow> {
    if rows == [] then [x]
    else if Precedes(x, rows[0]) then [x] + rows
    else [rows[0]] + Insert(rows[1..], x)
  }

  function Sort(rows: seq<RootRow>): seq<RootRow> {
    if rows == [] then []
    else Insert(Sort(rows[..|rows| - 1]), rows[|rows| - 1])
  }

  lemma {:induction false} InsertKeeps(rows: seq<RootRow>, x: RootRow)
    ensures multiset(Insert(rows, x)) == multiset(rows) + multiset{x}
  {
    if rows != [] {
      if Precedes(x, rows[0]) {
      } else {
        InsertKeeps(rows[1..], x);
      }
      assert rows == [rows[0]] + rows[1..];
    }
  }

  lemma {:induction false} InsertDescends(rows: seq<RootRow>, x: RootRow)
    requires Descending(rows) && forall i :: 0 <= i < |rows| ==> rows[i].id != x.id
    ensures Descending(Insert(rows, x))
  {
    if rows == [] {
    } else if Precedes(x, rows[0]) {
      forall j | 1 <= j < |rows|
        ensures Precedes(x, rows[j])
      {
        PrecedesTransitive(x, rows[0], rows[j]);
      }
    } else {
      InsertDescends(rows[1..], x);
      PrecedesTotal(rows[0], x);
      var tail := Insert(rows[1..], x);
      InsertKeeps(rows[1..], x);
      forall y | y in tail
        ensures Precedes(rows[0], y)
      {
        assert y in multiset(tail);
        assert y == x || y in rows[1..];
      }
      assert forall j :: 0 <= j < |tail| ==> tail[j] in tail;
    }
  }

  lemma {:induction false} SortKeeps(rows: seq<RootRow>)
    ensures multiset(Sort(rows)) == multiset(rows) && |Sort(rows)| == |rows|
  {
    if rows != [] {
      var n := |rows| - 1;
      SortKeeps(rows[..n]);
      InsertKeeps(Sort(rows[..n]), rows[n]);
      assert rows == rows[..n] + [rows[n]];
    }
    assert |multiset(Sort(rows))| == |multiset(rows)|;
  }

  lemma {:induction false} SortDescends(rows: seq<RootRow>)
    requires DistinctIds(rows)
    ensures Descending(Sort(rows))
  {
    if rows != [] {
      var n := |rows| - 1;
      SortDescends(rows[..n]);
      SortKeeps(rows[..n]);
      var sorted := Sort(rows[..n]);
      forall i | 0 <= i < |sorted|
        ensures sorted[i].id != rows[n].id
      {
        assert sorted[i] in multiset(sorted);
        assert sorted[i] in rows[..n];
      }
      InsertDescends(sorted, rows[n]);
    }
  }

  /** The head of a descending list precedes every other member. */
  lemma HeadFirst(rows: seq<RootRow>, x: RootRow)
    requires Descending(rows) && x in rows && x != rows[0]
    ensures Precedes(rows[0], x)
  {
    var i :| 0 <= i < |rows| && rows[i] == x;
  }

  lemma SameHead(a: seq<RootRow>, b: seq<RootRow>)
    requires Descending(a) && Descending(b) && multiset(a) == multiset(b) && a != [] && b != []
    ensures a[0] == b[0]
  {
    assert a[0] in multiset(b) && b[0] in multiset(a);
    if a[0] != b[0] {
      hide Precedes, Descending;
      HeadFirst(a, b[0]);
      HeadFirst(b, a[0]);
      PrecedesAsymmetric(a[0], b[0]);
    }
  }

  /** Two descending lists of the same rows are the same list. */
  lemma {:induction false} DescendingUnique(a: seq<RootRow>, b: seq<RootRow>)
    requires Descending(a) && Descending(b) && multiset(a) == multiset(b)
    ensures a == b
  {
    hide Precedes;
    assert |a| == |multiset(a)| == |multiset(b)| == |b|;
    if a != [] {
      SameHead(a, b);
      TailMultiset(a);
      TailMultiset(b);
      DescendingUnique(a[1..], b[1..]);
      assert a == [a[0]] + a[1..] && b == [b[0]] + b[1..];
    }
  }

  lemma TailMultiset(rows: seq<RootRow>)
    requires rows != []
    ensures multiset(rows[1..]) == multiset(rows) - multiset{rows[0]}
  {
    assert rows == [rows[0]] + rows[1..];
  }

  // Cursors and pages

  function CursorOf(row: RootRow): Cursor { Cursor(row.timestamp, row.id) }

  predicate IsAfter(row: RootRow, cursor: Option<Cursor>) {
    AfterCursor(row.timestamp, row.id, cursor)
  }

  function After(rows: seq<RootRow>, cursor: Option<Cursor>): seq<RootRow> {
    if rows == [] then []
    else if IsAfter(rows[0], cursor) then [rows[0]] + After(rows[1..], cursor)
    else After(rows[1..], cursor)
  }

  /** The first `limit` rows, and where to continue when there are more. */
  function FirstPage(rows: seq<RootRow>, limit: nat): (seq<RootRow>, Option<Cursor>)
    requires limit >= 1
  {
    if |rows| > limit then (rows[..limit], Some(CursorOf(rows[limit - 1]))) else (rows, None)
  }

  lemma {:induction false} AfterNone(rows: seq<RootRow>)
    ensures After(rows, None) == rows
  {
    if rows != [] {
      AfterNone(rows[1..]);
      assert rows == [rows[0]] + rows[1..];
    }
  }

  lemma {:induction false} AfterAppend(a: seq<RootRow>, b: seq<RootRow>, cursor: Option<Cursor>)
    ensures After(a + b, cursor) == After(a, cursor) + After(b, cursor)
  {
    if a == [] {
      assert a + b == b;
    } else {
      assert (a + b)[1..] == a[1..] + b;
      AfterAppend(a[1..], b, cursor);
    }
  }

  lemma {:induction false} AfterAll(rows: seq<RootRow>, cursor: Option<Cursor>)
    requires forall x :: x in rows ==> IsAfter(x, cursor)
    ensures After(rows, cursor) == rows
  {
    if rows != [] {
      AfterAll(rows[1..], cursor);
      assert rows == [rows[0]] + rows[1..];
    }
  }

  lemma {:induction false} AfterNothing(rows: seq<RootRow>, cursor: Option<Cursor>)
    requires forall x :: x in rows ==> !IsAfter(x, cursor)
    ensures After(rows, cursor) == []
  {
    if rows != [] { AfterNothing(rows[1..], cursor); }
  }

  /** In a descending list, the rows after the k-th row's cursor are the rest of the list. */
  lemma AfterIsDrop(rows: seq<RootRow>, k: nat)
    requires Descending(rows) && 0 < k <= |rows|
    ensures After(rows, Some(CursorOf(rows[k - 1]))) == rows[k..]
  {
    hide After, IsAfter, Precedes;
    var last := rows[k - 1];
    var c := Some(CursorOf(last));
    assert rows == rows[..k] + rows[k..];
    AfterAppend(rows[..k], rows[k..], c);
    forall i | 0 <= i < |rows|
      ensures IsAfter(rows[i], c) <==> i >= k
    {
      AfterIsPrecedes(last, rows[i]);
      if i < k - 1 { PrecedesAsymmetric(rows[i], last); }
      NeverBeforeItself(last);
    }
    AfterNothing(rows[..k], c);
    assert [] + rows[k..] == rows[k..];
    AfterAll(rows[k..], c);
  }

  /** The cursor of a row admits exactly the rows behind it. */
  lemma AfterIsPrecedes(m: RootRow, x: RootRow)
    ensures IsAfter(x, Some(CursorOf(m))) <==> Precedes(m, x)
  {}

  lemma NeverBeforeItself(m: RootRow)
    ensures !Precedes(m, m)
  {
    LessIrreflexive(m.id);
  }

  lemma {:induction false} AfterMembers(rows: seq<RootRow>, cursor: Option<Cursor>)
    ensures forall x :: x in After(rows, cursor) <==> x in rows && IsAfter(x, cursor)
  {
    hide IsAfter;
    if rows != [] {
      AfterMembers(rows[1..], cursor);
      assert rows == [rows[0]] + rows[1..];
    }
  }

  lemma {:induction false} AfterKeepsOrder(rows: seq<RootRow>, cursor: Option<Cursor>)
    ensures Descending(rows) ==> Descending(After(rows, cursor))
    ensures DistinctIds(rows) ==> DistinctIds(After(rows, cursor))
  {
    hide IsAfter, Precedes;
    if rows != [] {
      AfterKeepsOrder(rows[1..], cursor);
      AfterMembers(rows[1..], cursor);
      var tail := After(rows[1..], cursor);
      forall j | 0 <= j < |tail|
        ensures exists i :: 1 <= i < |rows| && rows[i] == tail[j]
      {
        assert tail[j] in rows[1..];
        var i :| 0 <= i < |rows[1..]| && rows[1..][i] == tail[j];
        assert rows[i + 1] == tail[j];
      }
    }
  }

  // The reader's own loops

  /** sort.SliceStable with the listing's comparison. */
  method SortRows(rows: seq<RootRow>) returns (sorted: seq<RootRow>)
    ensures sorted == Sort(rows)
  {
    sorted := [];
    for i := 0 to |rows|
      invariant sorted == Sort(rows[..i])
    {
      assert rows[..i + 1][..i] == rows[..i];
      sorted := Insert(sorted, rows[i]);
    }
    assert rows[..|rows|] == rows;
  }

  /** Keep the rows strictly after the cursor position. */
  method FilterAfter(rows: seq<RootRow>, cursor: Cursor) returns (filtered: seq<RootRow>)
    ensures filtered == After(rows, Some(cursor))
  {
    hide After, Less;
    filtered := [];
    AfterNothing([], Some(cursor));
    for i := 0 to |rows|
      invariant filtered == After(rows[..i], Some(cursor))
    {
      AfterSnoc(rows[..i], rows[i], Some(cursor));
      assert rows[..i + 1] == rows[..i] + [rows[i]];
      if rows[i].timestamp < cursor.timestamp || (rows[i].timestamp == cursor.timestamp && Less(rows[i].id, cursor.id)) {
        filtered := filtered + [rows[i]];
      }
    }
    assert rows[..|rows|] == rows;
  }

  lemma AfterSnoc(rows: seq<RootRow>, x: RootRow, cursor: Option<Cursor>)
    ensures After(rows + [x], cursor) == After(rows, cursor) + (if IsAfter(x, cursor) then [x] else [])
  {
    hide IsAfter;
    AfterAppend(rows, [x], cursor);
    assert [x][1..] == [];
  }

  /** The cursor filter, the cut to limit + 1 rows, and the next cursor. */
  method CutPage(rows: seq<RootRow>, limit: nat, cursor: Option<Cursor>) returns (page: seq<RootRow>, next: Option<Cursor>)
    requires limit >= 1
    ensures page == FirstPage(After(rows, cursor), limit).0 && next == FirstPage(After(rows, cursor), limit).1
  {
    hide After;
    var candidates := rows;
    if cursor.Some? {
      candidates := FilterAfter(rows, cursor.value);
    } else {
      AfterNone(rows);
    }
    var take := if limit + 1 < |candidates| then limit + 1 else |candidates|;
    page := candidates[..take];
    next := None;
    if |page| > limit {
      var last := page[limit - 1];
      next := Some(Cursor(last.timestamp, last.id));
      page := page[..limit];
    }
    assert candidates == After(rows, cursor);
    assert page == candidates[..if |candidates| > limit then limit else |candidates|];
  }
}
