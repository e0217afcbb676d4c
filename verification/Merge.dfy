/** Merging the memory page with the SQLite page. */
module Merge {
  import opened Strings
  import opened Inspect
  import opened Rows
  import opened Sets

  datatype Source = FromMemory | FromSQLite | FromBoth | NoSource

  function Ids(rows: seq<RootRow>): set<string> { set x | x in rows :: x.id }

  /** The rows whose id is not taken yet. */
  function Fresh(rows: seq<RootRow>, taken: set<string>): seq<RootRow> {
    if rows == [] then []
    else
      var n := |rows| - 1;
      Fresh(rows[..n], taken) + (if rows[n].id in taken then [] else [rows[n]])
  }

  /** The fall-through: memory rows, then the SQLite rows with new ids, sorted. */
  function Merged(mem: seq<RootRow>, sql: seq<RootRow>): seq<RootRow> {
    Sort(mem + Fresh(sql, Ids(mem)))
  }

  /** gatherRoots. `mem` and `sql` are all rows each enabled store matches, in listing order;
      `filtered` says that the search has field terms, which only SQLite can answer. */
  method GatherRoots(filtered: bool, mem: Option<seq<RootRow>>, sql: Option<seq<RootRow>>, limit: nat, cursor: Option<Cursor>)
    returns (rows: seq<RootRow>, next: Option<Cursor>, source: Source)
    requires limit >= 1
    ensures sql.None? && (filtered || mem.None?) ==> rows == [] && next.None? && source == NoSource
    ensures sql.Some? && (filtered || mem.None?) ==>
      rows == FirstPage(After(sql.value, cursor), limit).0 && next == FirstPage(After(sql.value, cursor), limit).1 && source == FromSQLite
    ensures !filtered && mem.Some? && (sql.None? || |After(mem.value, cursor)| >= limit) ==>
      rows == FirstPage(After(mem.value, cursor), limit).0 && next == FirstPage(After(mem.value, cursor), limit).1 && source == FromMemory
    ensures !filtered && mem.Some? && sql.Some? && |After(mem.value, cursor)| < limit ==>
      var all := Merged(After(mem.value, cursor), FirstPage(After(sql.value, cursor), limit).0);
      rows == FirstPage(all, limit).0 && next == FirstPage(all, limit).1
    ensures !filtered && mem.Some? && sql.Some? && Stores(mem.value, sql.value) ==>
      PageExact(After(mem.value, cursor), After(sql.value, cursor), limit, rows, next)
  {
    hide After, Sort, Fresh, PageExact, Stores;
    if mem.Some? && sql.Some? && Stores(mem.value, sql.value) {
      AfterStores(mem.value, sql.value, cursor);
      GatheredExact(After(mem.value, cursor), After(sql.value, cursor), limit);
    }
    if filtered || mem.None? {
      if sql.None? {
        return [], None, NoSource;
      }
      rows, next := CutPage(sql.value, limit, cursor);
      return rows, next, FromSQLite;
    }
    var memRows, memNext := CutPage(mem.value, limit, cursor);
    if |memRows| >= limit || sql.None? {
      return memRows, memNext, FromMemory;
    }
    var memIDs := Ids(memRows);
    var sqlRows, _ := CutPage(sql.value, limit, cursor);
    var deduped := memRows;
    FreshNone(memIDs);
    for i := 0 to |sqlRows|
      invariant deduped == memRows + Fresh(sqlRows[..i], memIDs)
    {
      FreshSnoc(sqlRows, i, memIDs);
      if sqlRows[i].id !in memIDs {
        deduped := deduped + [sqlRows[i]];
      }
    }
    assert sqlRows[..|sqlRows|] == sqlRows;
    deduped := SortRows(deduped);
    next := None;
    rows := deduped;
    if |deduped| > limit {
      var last := deduped[limit - 1];
      next := Some(Cursor(last.timestamp, last.id));
      rows := deduped[..limit];
    }
    source := if |memRows| > 0 && |sqlRows| > 0 then FromBoth else if |sqlRows| > 0 then FromSQLite else FromMemory;
  }

  /** A short memory page: the answer is exactly the first page of the id-deduplicated union
      of everything both stores match; a returned cursor has every other row behind it; and a
      missing cursor hides rows exactly when SQLite had more and memory contributed no id
      outside the SQLite page. */
  predicate ShortPageExact(mem: seq<RootRow>, sql: seq<RootRow>, limit: nat, rows: seq<RootRow>, next: Option<Cursor>)
    requires limit >= 1
  {
    var full := Merged(mem, sql);
    && rows == FirstPage(full, limit).0
    && (next.Some? ==> |full| > limit && forall x :: x in full[limit..] ==> IsAfter(x, next))
    && (next.None? && |full| > limit <==> |sql| > limit && Ids(mem) <= Ids(sql[..limit]))
  }

  /** Every row only SQLite has sorts behind the memory page. */
  predicate OnlyOlder(mem: seq<RootRow>, sql: seq<RootRow>, limit: nat)
    requires 1 <= limit <= |mem|
  {
    forall y :: y in sql && y.id !in Ids(mem) ==> Precedes(mem[limit - 1], y)
  }

  /** A full memory page, answered without SQLite: it is the first page of the union exactly
      when every row only SQLite has sorts behind it; a returned cursor has all other rows
      behind it exactly then; and a missing cursor hides rows exactly when memory has `limit`
      rows and SQLite another id. */
  predicate FullPageExact(mem: seq<RootRow>, sql: seq<RootRow>, limit: nat, rows: seq<RootRow>, next: Option<Cursor>)
    requires 1 <= limit <= |mem|
  {
    var full := Merged(mem, sql);
    && (rows == FirstPage(full, limit).0 <==> OnlyOlder(mem, sql, limit))
    && (next.Some? ==> ((forall x :: x in full && x !in rows ==> IsAfter(x, next)) <==> OnlyOlder(mem, sql, limit)))
    && (next.None? && |full| > |rows| <==> |mem| == limit && !(Ids(sql) <= Ids(mem)))
  }

  /** What the answer is worth against all rows both stores match after the cursor. */
  predicate PageExact(mem: seq<RootRow>, sql: seq<RootRow>, limit: nat, rows: seq<RootRow>, next: Option<Cursor>)
    requires limit >= 1
  {
    if |mem| < limit then ShortPageExact(mem, sql, limit, rows, next) else FullPageExact(mem, sql, limit, rows, next)
  }

  lemma GatheredExact(mem: seq<RootRow>, sql: seq<RootRow>, limit: nat)
    requires Stores(mem, sql) && limit >= 1
    ensures var (rows, next) := FirstPage(if |mem| >= limit then mem else Merged(mem, FirstPage(sql, limit).0), limit);
      PageExact(mem, sql, limit, rows, next)
  {
    hide Merged, Stores, ShortPageExact, FullPageExact;
    if |mem| >= limit {
      FullMemoryPageExact(mem, sql, limit);
    } else {
      MergedPageExact(mem, sql, limit);
    }
  }

  lemma FreshSnoc(rows: seq<RootRow>, i: nat, taken: set<string>)
    requires i < |rows|
    ensures Fresh(rows[..i + 1], taken) == Fresh(rows[..i], taken) + (if rows[i].id in taken then [] else [rows[i]])
  {
    assert rows[..i + 1][..i] == rows[..i];
  }

  lemma FreshNone(taken: set<string>)
    ensures Fresh([], taken) == []
  {}

  // Facts about fresh rows

  lemma {:induction false} FreshMembers(rows: seq<RootRow>, taken: set<string>)
    ensures forall x :: x in Fresh(rows, taken) <==> x in rows && x.id !in taken
  {
    if rows != [] {
      FreshMembers(rows[..|rows| - 1], taken);
      assert rows == rows[..|rows| - 1] + [rows[|rows| - 1]];
    }
  }

  lemma {:induction false} FreshAppend(a: seq<RootRow>, b: seq<RootRow>, taken: set<string>)
    ensures Fresh(a + b, taken) == Fresh(a, taken) + Fresh(b, taken)
  {
    if b == [] {
      assert a + b == a;
    } else {
      var n := |b| - 1;
      FreshAppend(a, b[..n], taken);
      assert (a + b)[..|a| + n] == a + b[..n] && (a + b)[|a| + n] == b[n];
    }
  }

  lemma {:induction false} FreshDistinct(rows: seq<RootRow>, taken: set<string>)
    requires DistinctIds(rows)
    ensures DistinctIds(Fresh(rows, taken))
  {
    if rows != [] {
      var n := |rows| - 1;
      FreshDistinct(rows[..n], taken);
      FreshMembers(rows[..n], taken);
      var kept := Fresh(rows[..n], taken);
      forall j | 0 <= j < |kept|
        ensures kept[j].id != rows[n].id
      {
        assert kept[j] in rows[..n];
      }
    }
  }

  /** Memory rows plus fresh rows have distinct ids. */
  lemma UnionDistinct(mem: seq<RootRow>, sql: seq<RootRow>)
    requires DistinctIds(mem) && DistinctIds(sql)
    ensures DistinctIds(mem + Fresh(sql, Ids(mem)))
  {
    FreshDistinct(sql, Ids(mem));
    FreshMembers(sql, Ids(mem));
    var kept := Fresh(sql, Ids(mem));
    forall i, j | 0 <= i < |mem| && 0 <= j < |kept|
      ensures mem[i].id != kept[j].id
    {
      assert mem[i] in mem && kept[j] in kept;
    }
  }

  lemma {:induction false} IdsCard(rows: seq<RootRow>)
    ensures |Ids(rows)| <= |rows|
    ensures DistinctIds(rows) ==> |Ids(rows)| == |rows|
  {
    if rows == [] {
      assert Ids(rows) == {};
    } else {
      var n := |rows| - 1;
      IdsCard(rows[..n]);
      assert rows == rows[..n] + [rows[n]];
      assert Ids(rows) == Ids(rows[..n]) + {rows[n].id};
      if DistinctIds(rows) {
        assert rows[n].id !in Ids(rows[..n]);
      }
    }
  }

  // The merged page is a page of the merged stores.

  /** Both stores agree on the timestamp of a shared id. */
  predicate SameKeys(mem: seq<RootRow>, sql: seq<RootRow>) {
    forall x, y :: x in mem && y in sql && x.id == y.id ==> x.timestamp == y.timestamp
  }

  predicate Stores(mem: seq<RootRow>, sql: seq<RootRow>) {
    Descending(mem) && Descending(sql) && DistinctIds(mem) && DistinctIds(sql) && SameKeys(mem, sql)
  }

  /** Some row of memory or of the first SQLite page stands for `p` and precedes what `p` precedes. */
  lemma Stands(mem: seq<RootRow>, page: seq<RootRow>, p: RootRow, r: RootRow) returns (d: RootRow)
    requires p in page && Precedes(p, r)
    requires forall x, y :: x in mem && y in page && x.id == y.id ==> x.timestamp == y.timestamp
    ensures d in mem + Fresh(page, Ids(mem)) && d.id == p.id && Precedes(d, r)
  {
    FreshMembers(page, Ids(mem));
    if p.id in Ids(mem) {
      d :| d in mem && d.id == p.id;
    } else {
      d := p;
    }
  }

  /** With a full SQLite page, the first `limit` merged rows precede every row beyond that page. */
  lemma PagePrecedesRest(mem: seq<RootRow>, sql: seq<RootRow>, limit: nat, r: RootRow)
    requires Stores(mem, sql) && 1 <= limit <= |sql| && r in sql[limit..] && r.id !in Ids(mem)
    ensures var sd := Merged(mem, sql[..limit]);
      |sd| >= limit && Precedes(sd[limit - 1], r)
  {
    var page := sql[..limit];
    var d := mem + Fresh(page, Ids(mem));
    var sd := Sort(d);
    UnionDistinct(mem, page);
    SortKeeps(d);
    SortDescends(d);
    PageIdsIn(mem, page, sd);
    IdsCard(page);
    IdsCard(sd);
    SubsetCard(Ids(page), Ids(sd));
    var last := sd[limit - 1];
    assert last.id != r.id by { NotAmong(mem, sql, limit, r, last, sd); }
    PrecedesTotal(last, r);
    if Precedes(r, last) {
      forall id | id in Ids(page)
        ensures id in Ids(sd[..limit - 1])
      {
        var p :| p in page && p.id == id;
        BeforeLast(mem, sql, limit, r, p, sd);
      }
      IdsCard(sd[..limit - 1]);
      SubsetCard(Ids(page), Ids(sd[..limit - 1]));
      assert false;
    }
  }

  lemma PageIdsIn(mem: seq<RootRow>, page: seq<RootRow>, sd: seq<RootRow>)
    requires multiset(sd) == multiset(mem + Fresh(page, Ids(mem)))
    ensures Ids(page) <= Ids(sd)
  {
    FreshMembers(page, Ids(mem));
    forall id | id in Ids(page)
      ensures id in Ids(sd)
    {
      var p :| p in page && p.id == id;
      var d :| d in mem + Fresh(page, Ids(mem)) && d.id == id;
      assert d in multiset(sd);
    }
  }

  lemma NotAmong(mem: seq<RootRow>, sql: seq<RootRow>, limit: nat, r: RootRow, x: RootRow, sd: seq<RootRow>)
    requires Stores(mem, sql) && 1 <= limit <= |sql| && r in sql[limit..] && r.id !in Ids(mem)
    requires multiset(sd) == multiset(mem + Fresh(sql[..limit], Ids(mem))) && x in sd
    ensures x.id != r.id
  {
    FreshMembers(sql[..limit], Ids(mem));
    assert x in multiset(sd);
    if x !in mem {
      var i :| 0 <= i < limit && sql[i] == x;
      var j :| limit <= j < |sql| && sql[j] == r;
    }
  }

  /** A page row's stand-in sits among the first limit - 1 rows when `r` precedes the limit-th. */
  lemma BeforeLast(mem: seq<RootRow>, sql: seq<RootRow>, limit: nat, r: RootRow, p: RootRow, sd: seq<RootRow>)
    requires Stores(mem, sql) && 1 <= limit <= |sql| && r in sql[limit..] && p in sql[..limit]
    requires multiset(sd) == multiset(mem + Fresh(sql[..limit], Ids(mem))) && Descending(sd) && |sd| >= limit
    requires Precedes(r, sd[limit - 1])
    ensures p.id in Ids(sd[..limit - 1])
  {
    hide Less, Fresh;
    var i :| 0 <= i < limit && sql[i] == p;
    var j :| limit <= j < |sql| && sql[j] == r;
    assert Precedes(p, r);
    var d := Stands(mem, sql[..limit], p, r);
    assert d in multiset(sd);
    var k :| 0 <= k < |sd| && sd[k] == d;
    PrecedesTransitive(d, r, sd[limit - 1]);
    if k >= limit - 1 {
      PrecedesAsymmetric(sd[limit - 1], d);
    }
    assert sd[..limit - 1][k] == d;
  }

  lemma UnionIds(mem: seq<RootRow>, page: seq<RootRow>)
    ensures Ids(mem + Fresh(page, Ids(mem))) == Ids(mem) + Ids(page)
  {
    FreshMembers(page, Ids(mem));
    var d := mem + Fresh(page, Ids(mem));
    forall id | id in Ids(page)
      ensures id in Ids(d)
    {
      var p :| p in page && p.id == id;
      if id in Ids(mem) {
        var m :| m in mem && m.id == id;
        assert m in d;
      } else {
        assert p in d;
      }
    }
    forall id | id in Ids(mem)
      ensures id in Ids(d)
    {
      var m :| m in mem && m.id == id;
      assert m in d;
    }
  }

  /** A full SQLite page leaves at least `limit` merged rows, and exactly that many when
      memory adds no id of its own. */
  lemma MergedSize(mem: seq<RootRow>, page: seq<RootRow>)
    requires DistinctIds(mem) && DistinctIds(page)
    ensures |Merged(mem, page)| >= |page|
    ensures |Merged(mem, page)| == |page| <==> Ids(mem) <= Ids(page)
  {
    var d := mem + Fresh(page, Ids(mem));
    UnionDistinct(mem, page);
    SortKeeps(d);
    UnionIds(mem, page);
    IdsCard(d);
    IdsCard(page);
    SubsetCard(Ids(page), Ids(d));
    if Ids(mem) <= Ids(page) {
      assert Ids(d) == Ids(page);
    }
    if |d| == |page| {
      assert |Ids(d) - Ids(page)| == 0 by { assert Ids(d) == Ids(page) + (Ids(d) - Ids(page)); }
    }
  }

  /** Adding rows that all come after the limit-th row does not change the first `limit`. */
  lemma SortPrefix(d: seq<RootRow>, r: seq<RootRow>, limit: nat)
    requires DistinctIds(d) && DistinctIds(d + r) && 1 <= limit <= |Sort(d)|
    requires forall y :: y in r ==> Precedes(Sort(d)[limit - 1], y)
    ensures |Sort(d + r)| >= limit && Sort(d + r)[..limit] == Sort(d)[..limit]
  {
    hide Sort, Precedes, DistinctIds, Descending;
    var sd := Sort(d);
    var head, tail := sd[..limit], sd[limit..] + r;
    SortKeeps(d);
    SortDescends(d);
    SortKeeps(d + r);
    SortDescends(d + r);
    SortKeeps(tail);
    TailDistinct(sd, limit, r, d);
    SortDescends(tail);
    assert sd == head + sd[limit..];
    assert multiset(head + Sort(tail)) == multiset(d + r);
    PrefixDescending(sd, limit);
    forall x, y | x in head && y in Sort(tail)
      ensures Precedes(x, y)
    {
      assert y in multiset(Sort(tail));
      HeadPrecedesTail(sd, limit, r, x, y);
    }
    GlueDescending(head, Sort(tail));
    DescendingUnique(head + Sort(tail), Sort(d + r));
    assert (head + Sort(tail))[..limit] == head;
  }

  lemma PrefixDescending(sd: seq<RootRow>, limit: nat)
    requires Descending(sd) && limit <= |sd|
    ensures Descending(sd[..limit])
  {}

  lemma HeadPrecedesTail(sd: seq<RootRow>, limit: nat, r: seq<RootRow>, x: RootRow, y: RootRow)
    requires Descending(sd) && 1 <= limit <= |sd| && x in sd[..limit] && y in sd[limit..] + r
    requires forall z :: z in r ==> Precedes(sd[limit - 1], z)
    ensures Precedes(x, y)
  {
    hide Precedes;
    var i :| 0 <= i < limit && sd[i] == x;
    if y in r {
      if i < limit - 1 { PrecedesTransitive(x, sd[limit - 1], y); }
    } else {
      var j :| limit <= j < |sd| && sd[j] == y;
    }
  }

  /** Rows beyond the SQLite page only ever sort behind the first `limit` merged rows. */
  lemma MergeBeyondPage(mem: seq<RootRow>, sql: seq<RootRow>, limit: nat)
    requires Stores(mem, sql) && 1 <= limit < |sql|
    ensures var sd, full := Merged(mem, sql[..limit]), Merged(mem, sql);
      |sd| >= limit && |full| >= limit && full[..limit] == sd[..limit]
  {
    hide Sort, Precedes, Fresh;
    var page, rest := sql[..limit], sql[limit..];
    var d, r := mem + Fresh(page, Ids(mem)), Fresh(rest, Ids(mem));
    assert sql == page + rest;
    FreshAppend(page, rest, Ids(mem));
    assert mem + Fresh(sql, Ids(mem)) == d + r;
    UnionDistinct(mem, page);
    UnionDistinct(mem, sql);
    MergedSize(mem, page);
    FreshMembers(rest, Ids(mem));
    forall y | y in r
      ensures Precedes(Sort(d)[limit - 1], y)
    {
      PagePrecedesRest(mem, sql, limit, y);
    }
    SortPrefix(d, r, limit);
  }

  lemma GlueDescending(a: seq<RootRow>, b: seq<RootRow>)
    requires Descending(a) && Descending(b) && forall x, y :: x in a && y in b ==> Precedes(x, y)
    ensures Descending(a + b)
  {}

  lemma TailDistinct(sd: seq<RootRow>, limit: nat, r: seq<RootRow>, d: seq<RootRow>)
    requires limit <= |sd| && multiset(sd) == multiset(d) && Descending(sd) && DistinctIds(d + r)
    ensures DistinctIds(sd[limit..] + r)
  {
    assert DistinctIds(sd) by { PermutationDistinct(sd, d, r); }
    forall i, j | limit <= i < |sd| && 0 <= j < |r|
      ensures sd[i].id != r[j].id
    {
      assert sd[i] in multiset(d);
      var k :| 0 <= k < |d| && d[k] == sd[i];
      assert (d + r)[k].id != (d + r)[|d| + j].id;
    }
    assert DistinctIds(r) by {
      forall i, j | 0 <= i < j < |r|
        ensures r[i].id != r[j].id
      {
        assert (d + r)[|d| + i].id != (d + r)[|d| + j].id;
      }
    }
  }

  lemma PermutationDistinct(sd: seq<RootRow>, d: seq<RootRow>, r: seq<RootRow>)
    requires multiset(sd) == multiset(d) && Descending(sd) && DistinctIds(d + r)
    ensures DistinctIds(sd)
  {
    forall i, j | 0 <= i < j < |sd|
      ensures sd[i].id != sd[j].id
    {
      assert sd[i] in multiset(d) && sd[j] in multiset(d);
      var a :| 0 <= a < |d| && d[a] == sd[i];
      var b :| 0 <= b < |d| && d[b] == sd[j];
      assert Precedes(sd[i], sd[j]);
      PrecedesAsymmetric(sd[i], sd[j]);
      assert a != b;
      assert (d + r)[a] == d[a] && (d + r)[b] == d[b];
    }
  }

  lemma MergedPageExact(mem: seq<RootRow>, sql: seq<RootRow>, limit: nat)
    requires Stores(mem, sql) && limit >= 1
    ensures var (rows, next) := FirstPage(Merged(mem, FirstPage(sql, limit).0), limit);
      ShortPageExact(mem, sql, limit, rows, next)
  {
    hide Sort, Precedes, Fresh, Ids;
    var full := Merged(mem, sql);
    UnionDistinct(mem, sql);
    SortDescends(mem + Fresh(sql, Ids(mem)));
    if |full| > limit {
      RestIsAfter(full, limit);
    }
    if |sql| > limit {
      MergeBeyondPage(mem, sql, limit);
      MergedSize(mem, sql[..limit]);
      FullIsLarger(mem, sql, limit);
    }
  }

  lemma RestIsAfter(full: seq<RootRow>, limit: nat)
    requires Descending(full) && 1 <= limit < |full|
    ensures forall x :: x in full[limit..] ==> IsAfter(x, Some(CursorOf(full[limit - 1])))
  {}

  /** The full union has at least as many rows, and more when memory adds nothing. */
  lemma FullIsLarger(mem: seq<RootRow>, sql: seq<RootRow>, limit: nat)
    requires DistinctIds(mem) && DistinctIds(sql) && limit < |sql|
    ensures |Merged(mem, sql)| >= |Merged(mem, sql[..limit])|
    ensures Ids(mem) <= Ids(sql[..limit]) ==> |Merged(mem, sql)| > limit
  {
    var page := sql[..limit];
    assert sql == page + sql[limit..];
    FreshAppend(page, sql[limit..], Ids(mem));
    SortKeeps(mem + Fresh(page, Ids(mem)));
    SortKeeps(mem + Fresh(sql, Ids(mem)));
    MergedSize(mem, sql);
  }

  // A full memory page is returned without asking SQLite.

  lemma FullMemoryPageExact(mem: seq<RootRow>, sql: seq<RootRow>, limit: nat)
    requires Stores(mem, sql) && 1 <= limit <= |mem|
    ensures var (rows, next) := FirstPage(mem, limit);
      FullPageExact(mem, sql, limit, rows, next)
  {
    hide Sort, Precedes, Fresh, Ids;
    FullSize(mem, sql);
    if OnlyOlder(mem, sql, limit) {
      OlderKeepsPage(mem, sql, limit);
    } else {
      var y :| y in sql && y.id !in Ids(mem) && !Precedes(mem[limit - 1], y);
      NewerBreaksPage(mem, sql, limit, y);
    }
  }

  lemma FullSize(mem: seq<RootRow>, sql: seq<RootRow>)
    requires DistinctIds(mem) && DistinctIds(sql)
    ensures |Merged(mem, sql)| >= |mem|
    ensures |Merged(mem, sql)| == |mem| <==> Ids(sql) <= Ids(mem)
  {
    hide Sort;
    var d := mem + Fresh(sql, Ids(mem));
    FreshMembers(sql, Ids(mem));
    SortKeeps(d);
    if Fresh(sql, Ids(mem)) == [] {
      forall y | y in sql
        ensures y.id in Ids(mem)
      {
        assert y !in Fresh(sql, Ids(mem));
      }
    } else {
      var y := Fresh(sql, Ids(mem))[0];
      assert y in Fresh(sql, Ids(mem)) && y.id in Ids(sql);
    }
  }

  lemma OlderKeepsPage(mem: seq<RootRow>, sql: seq<RootRow>, limit: nat)
    requires Stores(mem, sql) && 1 <= limit <= |mem| && OnlyOlder(mem, sql, limit)
    ensures var full := Merged(mem, sql);
      && |full| >= limit && full[..limit] == mem[..limit]
      && forall x :: x in full && x !in mem[..limit] ==> IsAfter(x, Some(CursorOf(mem[limit - 1])))
  {
    hide Sort, Precedes, Fresh;
    var r := Fresh(sql, Ids(mem));
    UnionDistinct(mem, sql);
    FreshMembers(sql, Ids(mem));
    SortKeeps(mem);
    SortDescends(mem);
    DescendingUnique(Sort(mem), mem);
    SortPrefix(mem, r, limit);
    SortDescends(mem + r);
    var full := Sort(mem + r);
    assert full[limit - 1] == full[..limit][limit - 1] == mem[limit - 1];
    forall x | x in full && x !in mem[..limit]
      ensures IsAfter(x, Some(CursorOf(mem[limit - 1])))
    {
      assert full == full[..limit] + full[limit..];
      var k :| limit <= k < |full| && full[k] == x;
      AfterIsPrecedes(mem[limit - 1], x);
    }
  }

  /** A row only SQLite has that does not sort behind the page is neither in it nor after it. */
  lemma NewerBreaksPage(mem: seq<RootRow>, sql: seq<RootRow>, limit: nat, y: RootRow)
    requires Stores(mem, sql) && 1 <= limit <= |mem|
    requires y in sql && y.id !in Ids(mem) && !Precedes(mem[limit - 1], y)
    ensures y in Merged(mem, sql) && y !in mem
    ensures FirstPage(mem, limit).0 != FirstPage(Merged(mem, sql), limit).0
    ensures !IsAfter(y, Some(CursorOf(mem[limit - 1])))
  {
    hide Sort, Precedes, Fresh;
    var d := mem + Fresh(sql, Ids(mem));
    UnionDistinct(mem, sql);
    FreshMembers(sql, Ids(mem));
    SortKeeps(d);
    SortDescends(d);
    var full := Sort(d);
    assert y in multiset(d);
    assert y in multiset(full);
    var k :| 0 <= k < |full| && full[k] == y;
    assert k < limit ==> full[..limit][k] == y;
    assert k >= limit ==> Precedes(full[limit - 1], y);
    assert full[..limit][limit - 1] == full[limit - 1] && mem[..limit][limit - 1] == mem[limit - 1];
    assert FirstPage(full, limit).0 == full[..limit];
    AfterIsPrecedes(mem[limit - 1], y);
  }

  /** It happens: a ring of two rows, and a newer row that only SQLite still has. A page of
      one row comes with a cursor the newer row is not behind; a page of two has none. */
  lemma FullMemoryPageSkipsNewer(r: RootRow, r2: RootRow, s: RootRow)
    requires r.id != s.id && r2.id != s.id && r.id != r2.id && r2.timestamp < r.timestamp < s.timestamp
    ensures Stores([r, r2], [s]) && Merged([r, r2], [s]) == [s, r, r2]
    ensures var (rows, next) := FirstPage([r, r2], 1);
      rows == [r] && next.Some? && !IsAfter(s, next)
    ensures FirstPage([r, r2], 2) == ([r, r2], None)
  {
    hide Sort, Fresh;
    MergeOne([r, r2], s);
    SortThree(r, r2, s);
    hide Merged;
    assert [r, r2][..1] == [r];
  }

  lemma SortThree(r: RootRow, r2: RootRow, s: RootRow)
    requires r.id != s.id && r2.id != s.id && r.id != r2.id && r2.timestamp < r.timestamp < s.timestamp
    ensures Sort([r, r2] + [s]) == [s, r, r2]
  {
    hide Sort, Less;
    SortSnoc([], r);
    SortSnoc([r], r2);
    SortSnoc([r, r2], s);
    assert [] + [r] == [r] && [r] + [r2] == [r, r2] && [s] + [r, r2] == [s, r, r2];
    assert [r][1..] == [];
  }

  lemma SortSnoc(rows: seq<RootRow>, x: RootRow)
    ensures Sort(rows + [x]) == Insert(Sort(rows), x) && Sort([]) == []
  {
    hide Insert;
    assert (rows + [x])[..|rows|] == rows;
  }

  lemma MergeOne(mem: seq<RootRow>, s: RootRow)
    requires s.id !in Ids(mem)
    ensures Merged(mem, [s]) == Sort(mem + [s])
  {
    FreshNone(Ids(mem));
    assert [s][..0] == [];
    assert Fresh([s], Ids(mem)) == [] + [s] == [s];
  }

  /** It happens on the merged page too: an empty ring and two stored rows, one per page. */
  lemma MergedPageHidesRow(r: RootRow, s: RootRow)
    requires r.id != s.id && r.timestamp < s.timestamp
    ensures Stores([], [s, r]) && FirstPage(Merged([], FirstPage([s, r], 1).0), 1) == ([s], None)
    ensures Merged([], [s, r]) == [s, r]
  {
    assert Stores([], [s, r]);
    assert [s, r][..1] == [s];
    MergedAlone([s]);
    MergedAlone([s, r]);
  }

  lemma MergedAlone(sql: seq<RootRow>)
    requires Stores([], sql)
    ensures Merged([], sql) == sql
  {
    hide Sort;
    NothingTaken(sql);
    assert [] + sql == sql && Ids([]) == {};
    SortKeeps(sql);
    SortDescends(sql);
    DescendingUnique(Sort(sql), sql);
  }

  lemma {:induction false} NothingTaken(rows: seq<RootRow>)
    ensures Fresh(rows, {}) == rows
  {
    if rows != [] {
      NothingTaken(rows[..|rows| - 1]);
      assert rows == rows[..|rows| - 1] + [rows[|rows| - 1]];
    }
  }

  /** The two stores' rows after a cursor are again two such stores. */
  lemma AfterStores(mem: seq<RootRow>, sql: seq<RootRow>, cursor: Option<Cursor>)
    requires Stores(mem, sql)
    ensures Stores(After(mem, cursor), After(sql, cursor))
  {
    hide After, Precedes, IsAfter;
    AfterKeepsOrder(mem, cursor);
    AfterKeepsOrder(sql, cursor);
    AfterMembers(mem, cursor);
    AfterMembers(sql, cursor);
  }
}
