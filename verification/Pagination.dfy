/** Following next-cursors from the start visits every matching row exactly once. */
module Pagination {
  import opened Strings
  import opened Division
  import opened Capture
  import opened Inspect
  import opened Rows
  import opened CompileSql
  import opened MemoryReader
  import Base64
  import CursorCodec

  /** Rows whose cursor survives the wire: a byte-string id and a 64-bit timestamp. */
  predicate WireSafe(x: RootRow) {
    x.id != "" && Base64.Bytes(x.id) && CursorCodec.IsInt64(x.timestamp)
  }

  /** `pages` is what a client collects on a fixed snapshot: it asks for a page, sends the
      encoded cursor of the answer back, and stops when no cursor comes. */
  predicate Collects(rows: seq<RootRow>, limit: nat, cursor: Option<Cursor>, pages: seq<seq<RootRow>>)
    requires limit >= 1
    decreases pages
  {
    pages != [] &&
    var (page, next) := FirstPage(After(rows, cursor), limit);
    pages[0] == page &&
    if next.None? then |pages| == 1
    else
      Base64.Bytes(CursorCodec.Raw(next.value)) &&
      var sent := CursorCodec.Decode(CursorCodec.Encode(next.value));
      sent.Ok? && Collects(rows, limit, Some(sent.value), pages[1..])
  }

  /** The rows cut into consecutive runs of `limit`. */
  function Chunks(rows: seq<RootRow>, limit: nat): seq<seq<RootRow>>
    requires limit >= 1
    decreases |rows|
  {
    if |rows| <= limit then [rows] else [rows[..limit]] + Chunks(rows[limit..], limit)
  }

  function Concat(pages: seq<seq<RootRow>>): seq<RootRow> {
    if pages == [] then [] else pages[0] + Concat(pages[1..])
  }

  lemma {:induction false} ChunksCover(rows: seq<RootRow>, limit: nat)
    requires limit >= 1
    ensures Concat(Chunks(rows, limit)) == rows
    decreases |rows|
  {
    if |rows| <= limit {
      assert Concat([rows]) == rows + Concat([rows][1..]) == rows;
    } else {
      ChunksCover(rows[limit..], limit);
      assert Chunks(rows, limit)[1..] == Chunks(rows[limit..], limit);
      assert rows == rows[..limit] + rows[limit..];
    }
  }

  lemma {:induction false} ChunksCount(rows: seq<RootRow>, limit: nat)
    requires limit >= 1
    ensures |Chunks(rows, limit)| == if rows == [] then 1 else (|rows| + limit - 1) / limit
    decreases |rows|
  {
    if |rows| > limit {
      ChunksCount(rows[limit..], limit);
      DivPlus(|rows| - 1, limit);
      DivPlus(|rows| - 1 - limit, limit);
    } else if rows != [] {
      DivPlus(|rows| - 1, limit);
      SmallQuotient(|rows| - 1, limit);
    }
  }

  lemma {:induction false} CollectsChunks(rows: seq<RootRow>, limit: nat, k: nat, pages: seq<seq<RootRow>>)
    requires Descending(rows) && (forall x :: x in rows ==> WireSafe(x))
    requires limit >= 1 && k <= |rows|
    ensures var cursor := if k == 0 then None else Some(CursorOf(rows[k - 1]));
      Collects(rows, limit, cursor, pages) <==> pages == Chunks(rows[k..], limit)
    decreases |rows| - k
  {
    hide Descending, WireSafe, CursorCodec.Encode, CursorCodec.Decode, Base64.Bytes, CursorCodec.Raw;
    var cursor := if k == 0 then None else Some(CursorOf(rows[k - 1]));
    assert After(rows, cursor) == rows[k..] by {
      if k == 0 { AfterNone(rows); } else { AfterIsDrop(rows, k); }
    }
    var rest := rows[k..];
    if |rest| <= limit {
      assert |pages| == 1 ==> pages == [pages[0]];
    } else {
      var last := rows[k + limit - 1];
      assert rest[limit - 1] == last && last in rows;
      WireRoundTrip(last);
      if pages != [] {
        CollectsChunks(rows, limit, k + limit, pages[1..]);
        assert rest[limit..] == rows[k + limit..];
        assert pages == [pages[0]] + pages[1..];
        assert Chunks(rest, limit)[1..] == Chunks(rows[k + limit..], limit);
      }
    }
  }

  lemma WireRoundTrip(x: RootRow)
    requires WireSafe(x)
    ensures Base64.Bytes(CursorCodec.Raw(CursorOf(x)))
    ensures CursorCodec.Decode(CursorCodec.Encode(CursorOf(x))) == Ok(CursorOf(x))
  {
    CursorCodec.DecodeEncode(CursorOf(x));
  }

  /** On a fixed snapshot there is exactly one collection of pages. Its concatenation is the
      strictly descending list of the matching rows, each of them once, and it has
      max(1, ceil(n / limit)) pages. */
  lemma PaginationComplete(all: seq<Record>, q: InspectQuery, limit: nat, pages: seq<seq<RootRow>>)
    requires AllWellFormed(q.query) && DistinctRecords(all) && limit >= 1
    requires forall x :: x in Matching(all, q) ==> WireSafe(x)
    ensures Collects(Matching(all, q), limit, None, pages) <==> pages == Chunks(Matching(all, q), limit)
    ensures Collects(Matching(all, q), limit, None, pages) ==>
      && Descending(Concat(pages))
      && multiset(Concat(pages)) == multiset(Emitted(all, q, |all|))
      && |Concat(pages)| == |Emitted(all, q, |all|)|
      && |pages| == (var n := |Emitted(all, q, |all|)|; if n == 0 then 1 else (n + limit - 1) / limit)
  {
    hide Matching, Emitted, Collects, Chunks, Concat, WireSafe, Descending;
    var rows := Matching(all, q);
    MatchingIsListing(all, q);
    CollectsChunks(rows, limit, 0, pages);
    assert rows[0..] == rows;
    ChunksCover(rows, limit);
    ChunksCount(rows, limit);
    assert |rows| == |multiset(rows)| == |Emitted(all, q, |all|)|;
  }
}
