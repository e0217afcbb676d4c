/** The status histogram, tallied row by row from the ring and group by group from SQL. */
module Histogram {
  import opened Strings
  import opened Capture
  import opened SearchQuery
  import opened Inspect
  import opened Rows
  import opened CompileSql
  import opened CompilePredicate
  import opened MemoryReader

  datatype Bucket = Bucket(start: int, s2xx: nat, s3xx: nat, s4xx: nat, s5xx: nat, other: nat)

  /** 2..5 for the status classes, 0 for no status or any other code. */
  function StatusClass(status: Option<int>): nat {
    if status.None? then 0
    else if 200 <= status.value < 300 then 2
    else if 300 <= status.value < 400 then 3
    else if 400 <= status.value < 500 then 4
    else if 500 <= status.value < 600 then 5
    else 0
  }

  /** Integer division as Go and SQLite do it: towards zero. */
  function TruncDiv(a: int, b: int): int
    requires b > 0
  {
    if a >= 0 then a / b else -((-a) / b)
  }

  /** The time axis of a histogram. */
  datatype Axis = Axis(since: int, width: int, count: nat)
  {
    ghost predicate Valid() { width > 0 && count > 0 }
  }

  function Width(since: int, until: int, count: nat): int
    requires since < until && count > 0
  {
    var w := (until - since) / count;
    if w <= 0 then 1 else w
  }

  function RawIndex(axis: Axis, timestamp: int): int
    requires axis.Valid()
  {
    TruncDiv(timestamp - axis.since, axis.width)
  }

  function Clamp(idx: int, count: nat): (r: nat)
    requires count > 0
    ensures r < count
  {
    if idx < 0 then 0 else if idx >= count then count - 1 else idx
  }

  /** What GROUP BY sees of a row: unclamped bucket and class. */
  function Key(axis: Axis, x: RootRow): (int, nat)
    requires axis.Valid()
  {
    (RawIndex(axis, x.timestamp), StatusClass(x.status))
  }

  predicate Falls(axis: Axis, key: (int, nat), i: nat, klass: nat)
    requires axis.Valid()
  {
    Clamp(key.0, axis.count) == i && key.1 == klass
  }

  // The histogram of a list of rows

  function CountIn(axis: Axis, rows: seq<RootRow>, i: nat, klass: nat): nat
    requires axis.Valid()
  {
    if rows == [] then 0
    else
      var n := |rows| - 1;
      CountIn(axis, rows[..n], i, klass) + (if Falls(axis, Key(axis, rows[n]), i, klass) then 1 else 0)
  }

  function BucketOf(axis: Axis, rows: seq<RootRow>, i: nat): Bucket
    requires axis.Valid()
  {
    Bucket(axis.since + axis.width * i, CountIn(axis, rows, i, 2), CountIn(axis, rows, i, 3),
           CountIn(axis, rows, i, 4), CountIn(axis, rows, i, 5), CountIn(axis, rows, i, 0))
  }

  function Tally(axis: Axis, rows: seq<RootRow>): seq<Bucket>
    requires axis.Valid()
  {
    seq(axis.count, i requires 0 <= i < axis.count => BucketOf(axis, rows, i))
  }

  function Bump(b: Bucket, klass: nat, n: nat): Bucket {
    match klass
    case 2 => b.(s2xx := b.s2xx + n)
    case 3 => b.(s3xx := b.s3xx + n)
    case 4 => b.(s4xx := b.s4xx + n)
    case 5 => b.(s5xx := b.s5xx + n)
    case _ => b.(other := b.other + n)
  }

  /** One more row bumps one class of one bucket. */
  lemma TallySnoc(axis: Axis, rows: seq<RootRow>, x: RootRow)
    requires axis.Valid()
    ensures var (raw, klass) := Key(axis, x);
      var i := Clamp(raw, axis.count);
      Tally(axis, rows + [x]) == Tally(axis, rows)[i := Bump(Tally(axis, rows)[i], klass, 1)]
  {}

  method StartBuckets(axis: Axis) returns (buckets: seq<Bucket>)
    requires axis.Valid()
    ensures buckets == Tally(axis, [])
  {
    buckets := seq(axis.count, i requires 0 <= i < axis.count => Bucket(axis.since + axis.width * i, 0, 0, 0, 0, 0));
  }

  /** The tally closure of the memory reader. */
  method TallyRow(axis: Axis, buckets: seq<Bucket>, timestamp: int, status: Option<int>, ghost rows: seq<RootRow>, ghost x: RootRow)
    returns (out: seq<Bucket>)
    requires axis.Valid() && buckets == Tally(axis, rows)
    requires x.timestamp == timestamp && x.status == status
    ensures out == Tally(axis, rows + [x])
  {
    hide Tally, Bump;
    assert |buckets| == axis.count by { TallyLength(axis, rows); }
    var idx := TruncDiv(timestamp - axis.since, axis.width);
    if idx < 0 {
      idx := 0;
    }
    if idx >= axis.count {
      idx := axis.count - 1;
    }
    TallySnoc(axis, rows, x);
    out := buckets[idx := Bump(buckets[idx], StatusClass(status), 1)];
  }

  lemma TallyLength(axis: Axis, rows: seq<RootRow>)
    requires axis.Valid()
    ensures |Tally(axis, rows)| == axis.count
  {}

  /** Buckets are only produced when both bounds are set and in order. */
  predicate Bucketing(q: InspectQuery, count: int) {
    q.since.Some? && q.until.Some? && count > 0 && q.since.value < q.until.value
  }

  function AxisOf(q: InspectQuery, count: int): Axis
    requires Bucketing(q, count)
  {
    Axis(q.since.value, Width(q.since.value, q.until.value, count), count)
  }

  /** AggregateRoots over a snapshot of the ring: one pass, counting and tallying. */
  method AggregateRoots(all: seq<Record>, q: InspectQuery, count: int) returns (total: nat, buckets: seq<Bucket>)
    requires AllWellFormed(q.query)
    ensures total == |Emitted(all, q, |all|)|
    ensures buckets == if Bucketing(q, count) then Tally(AxisOf(q, count), Emitted(all, q, |all|)) else []
  {
    hide HasRequest, EventCount, Accepts, MatchOrphanResponse, MatchOrphanOutbound, WellFormed, Tally, Width;
    var requestCorrs := RequestCorrelations(all);
    var includeOrphans := !HasRequestOnlyTerm(q.query);
    var matchRequest := CompilePredicate.Compile(q.query);
    var bucketing := Bucketing(q, count);
    var axis := if bucketing then AxisOf(q, count) else Axis(0, 1, 1);
    assert axis.Valid() by { WidthPositive(q, count); }
    buckets := [];
    if bucketing {
      buckets := StartBuckets(axis);
    }
    total := 0;
    for i := 0 to |all|
      invariant total == |Emitted(all, q, i)|
      invariant buckets == if bucketing then Tally(axis, Emitted(all, q, i)) else []
    {
      var r := all[i];
      ghost var rows := Emitted(all, q, i);
      var take := InWindow(q, r.Timestamp()) &&
        match r
        case Request(v) => matchRequest(v)
        case Response(v) => includeOrphans && v.correlationID !in requestCorrs && MatchOrphanResponse(q.query, v)
        case Outbound(v) => includeOrphans && v.correlationID !in requestCorrs && MatchOrphanOutbound(q.query, v);
      assert take == Listed(all, q, r);
      if take {
        total := total + 1;
        if bucketing {
          var status := if r.Response? then Some(r.response.status) else None;
          buckets := TallyRow(axis, buckets, r.Timestamp(), status, rows, RowOf(all, r));
        }
      } else {
        assert rows + [] == rows;
      }
    }
  }

  lemma WidthPositive(q: InspectQuery, count: int)
    ensures Bucketing(q, count) ==> AxisOf(q, count).Valid()
  {}

  // Conservation

  function BucketTotal(b: Bucket): nat { b.s2xx + b.s3xx + b.s4xx + b.s5xx + b.other }

  function Sum(buckets: seq<Bucket>): nat {
    if buckets == [] then 0 else Sum(buckets[..|buckets| - 1]) + BucketTotal(buckets[|buckets| - 1])
  }

  lemma {:induction false} SumUpdate(buckets: seq<Bucket>, i: nat, b: Bucket)
    requires i < |buckets|
    ensures Sum(buckets[i := b]) == Sum(buckets) - BucketTotal(buckets[i]) + BucketTotal(b)
  {
    hide BucketTotal;
    var n := |buckets| - 1;
    if i == n {
      assert buckets[i := b][..n] == buckets[..n];
    } else {
      SumUpdate(buckets[..n], i, b);
      assert buckets[i := b][..n] == buckets[..n][i := b];
    }
  }

  /** The class counts of all buckets add up to the number of rows. */
  lemma {:induction false} TallyConserves(axis: Axis, rows: seq<RootRow>)
    requires axis.Valid()
    ensures Sum(Tally(axis, rows)) == |rows|
    decreases |rows|
  {
    if rows == [] {
      EmptySum(Tally(axis, []));
    } else {
      hide Tally, Sum, Clamp, RawIndex;
      var n := |rows| - 1;
      var x, before := rows[n], Tally(axis, rows[..n]);
      TallyConserves(axis, rows[..n]);
      assert rows == rows[..n] + [x];
      TallySnoc(axis, rows[..n], x);
      TallyLength(axis, rows[..n]);
      var (raw, klass) := Key(axis, x);
      var i := Clamp(raw, axis.count);
      SumUpdate(before, i, Bump(before[i], klass, 1));
    }
  }

  lemma {:induction false} EmptySum(buckets: seq<Bucket>)
    requires forall i :: 0 <= i < |buckets| ==> BucketTotal(buckets[i]) == 0
    ensures Sum(buckets) == 0
  {
    if buckets != [] { EmptySum(buckets[..|buckets| - 1]); }
  }

  // Placement

  /** A row's bucket starts no later than the row, and the next bucket starts after it. */
  lemma BucketContainsRow(axis: Axis, timestamp: int)
    requires axis.Valid() && axis.since <= timestamp
    ensures var i := Clamp(RawIndex(axis, timestamp), axis.count);
      axis.since + axis.width * i <= timestamp &&
      (i < axis.count - 1 ==> timestamp < axis.since + axis.width * (i + 1))
  {}

  /** Both facts for the rows of a bucketed aggregation. */
  lemma AggregationPlacesRows(all: seq<Record>, q: InspectQuery, count: int, x: RootRow)
    requires AllWellFormed(q.query) && Bucketing(q, count) && x in Emitted(all, q, |all|)
    ensures AxisOf(q, count).Valid()
    ensures var axis := AxisOf(q, count);
      var buckets := Tally(axis, Emitted(all, q, |all|));
      var i := Clamp(RawIndex(axis, x.timestamp), axis.count);
      buckets[i].start <= x.timestamp && (i < |buckets| - 1 ==> x.timestamp < buckets[i + 1].start)
  {
    hide Emitted, CountIn, Clamp, RawIndex;
    EmittedMembers(all, q, |all|);
    var k :| 0 <= k < |all| && Listed(all, q, all[k]) && RowOf(all, all[k]) == x;
    RowKey(all, all[k]);
    BucketContainsRow(AxisOf(q, count), x.timestamp);
  }

  // The grouped tally

  /** One output row of SELECT bucket, klass, COUNT(*) ... GROUP BY bucket, klass. */
  datatype Group = Group(key: (int, nat), cnt: nat)

  function CountKey(axis: Axis, rows: seq<RootRow>, key: (int, nat)): nat
    requires axis.Valid()
  {
    if rows == [] then 0
    else CountKey(axis, rows[..|rows| - 1], key) + (if Key(axis, rows[|rows| - 1]) == key then 1 else 0)
  }

  /** The groups of the rows, in any order: one per key that occurs, with its count. */
  predicate IsGrouping(axis: Axis, groups: seq<Group>, rows: seq<RootRow>)
    requires axis.Valid()
  {
    && (forall i, j :: 0 <= i < j < |groups| ==> groups[i].key != groups[j].key)
    && (forall g :: g in groups ==> g.cnt == CountKey(axis, rows, g.key))
    && (forall i :: 0 <= i < |rows| ==> HasGroup(groups, Key(axis, rows[i])))
  }

  predicate HasGroup(groups: seq<Group>, key: (int, nat)) {
    exists j :: 0 <= j < |groups| && groups[j].key == key
  }

  function Without(axis: Axis, rows: seq<RootRow>, key: (int, nat)): seq<RootRow>
    requires axis.Valid()
  {
    if rows == [] then []
    else
      var n := |rows| - 1;
      Without(axis, rows[..n], key) + (if Key(axis, rows[n]) == key then [] else [rows[n]])
  }

  lemma {:induction false} WithoutCounts(axis: Axis, rows: seq<RootRow>, key: (int, nat))
    requires axis.Valid()
    ensures |rows| == |Without(axis, rows, key)| + CountKey(axis, rows, key)
    ensures forall x :: x in Without(axis, rows, key) ==> x in rows && Key(axis, x) != key
    decreases |rows|
  {
    hide Key;
    if rows != [] {
      var n := |rows| - 1;
      WithoutCounts(axis, rows[..n], key);
      assert rows == rows[..n] + [rows[n]];
    }
  }

  lemma {:induction false} WithoutOtherKeys(axis: Axis, rows: seq<RootRow>, key: (int, nat), other: (int, nat))
    requires axis.Valid() && key != other
    ensures CountKey(axis, Without(axis, rows, key), other) == CountKey(axis, rows, other)
    decreases |rows|
  {
    hide Key;
    if rows != [] {
      var n := |rows| - 1;
      WithoutOtherKeys(axis, rows[..n], key, other);
      var kept := Without(axis, rows[..n], key);
      if Key(axis, rows[n]) == key {
        assert kept + [] == kept;
      } else {
        assert (kept + [rows[n]])[..|kept|] == kept;
      }
    }
  }

  lemma CountInSnoc(axis: Axis, rows: seq<RootRow>, x: RootRow, i: nat, klass: nat)
    requires axis.Valid()
    ensures CountIn(axis, rows + [x], i, klass) ==
      CountIn(axis, rows, i, klass) + (if Falls(axis, Key(axis, x), i, klass) then 1 else 0)
  {
    assert (rows + [x])[..|rows|] == rows;
  }

  lemma CountKeySnoc(axis: Axis, rows: seq<RootRow>, x: RootRow, key: (int, nat))
    requires axis.Valid()
    ensures CountKey(axis, rows + [x], key) == CountKey(axis, rows, key) + (if Key(axis, x) == key then 1 else 0)
  {
    assert (rows + [x])[..|rows|] == rows;
  }

  lemma {:induction false} WithoutBucket(axis: Axis, rows: seq<RootRow>, key: (int, nat), i: nat, klass: nat)
    requires axis.Valid()
    ensures CountIn(axis, rows, i, klass) == CountIn(axis, Without(axis, rows, key), i, klass) +
      if Falls(axis, key, i, klass) then CountKey(axis, rows, key) else 0
    decreases |rows|
  {
    if rows != [] {
      hide Key, Falls, CountIn, CountKey;
      var n := |rows| - 1;
      var x, kept := rows[n], Without(axis, rows[..n], key);
      WithoutBucket(axis, rows[..n], key, i, klass);
      assert rows == rows[..n] + [x];
      CountInSnoc(axis, rows[..n], x, i, klass);
      CountKeySnoc(axis, rows[..n], x, key);
      if Key(axis, x) == key {
        assert kept + [] == kept;
      } else {
        CountInSnoc(axis, kept, x, i, klass);
      }
    }
  }

  /** Dropping the first group drops its rows and leaves a grouping of the others. */
  lemma GroupingTail(axis: Axis, groups: seq<Group>, rows: seq<RootRow>)
    requires axis.Valid() && IsGrouping(axis, groups, rows) && groups != []
    ensures IsGrouping(axis, groups[1..], Without(axis, rows, groups[0].key))
  {
    hide Key, Without, CountKey;
    var key, rest := groups[0].key, groups[1..];
    WithoutCounts(axis, rows, key);
    forall i, j | 0 <= i < j < |rest|
      ensures rest[i].key != rest[j].key
    {
      assert rest[i] == groups[i + 1] && rest[j] == groups[j + 1];
    }
    forall g | g in rest
      ensures g.cnt == CountKey(axis, Without(axis, rows, key), g.key)
    {
      var j :| 0 <= j < |rest| && rest[j] == g;
      assert groups[j + 1] == g;
      WithoutOtherKeys(axis, rows, key, g.key);
    }
    var kept := Without(axis, rows, key);
    forall i | 0 <= i < |kept|
      ensures HasGroup(rest, Key(axis, kept[i]))
    {
      var x := kept[i];
      assert x in kept;
      var j :| 0 <= j < |rows| && rows[j] == x;
      assert HasGroup(groups, Key(axis, rows[j]));
      var m :| 0 <= m < |groups| && groups[m].key == Key(axis, x);
      assert m > 0 && rest[m - 1] == groups[m];
    }
  }

  /** Counts still to be added to bucket i, class klass, by the remaining groups. */
  function Remaining(axis: Axis, groups: seq<Group>, i: nat, klass: nat): nat
    requires axis.Valid()
  {
    if groups == [] then 0
    else Remaining(axis, groups[1..], i, klass) + (if Falls(axis, groups[0].key, i, klass) then groups[0].cnt else 0)
  }

  function TotalCount(groups: seq<Group>): nat {
    if groups == [] then 0 else groups[0].cnt + TotalCount(groups[1..])
  }

  /** The groups of a bucket and class account for exactly its rows. */
  lemma {:induction false} GroupsCount(axis: Axis, groups: seq<Group>, rows: seq<RootRow>, i: nat, klass: nat)
    requires axis.Valid() && IsGrouping(axis, groups, rows)
    ensures Remaining(axis, groups, i, klass) == CountIn(axis, rows, i, klass)
    ensures TotalCount(groups) == |rows|
    decreases |groups|
  {
    hide Key, Falls, Without;
    if groups == [] {
    } else {
      var key := groups[0].key;
      assert groups[0] in groups;
      GroupingTail(axis, groups, rows);
      GroupsCount(axis, groups[1..], Without(axis, rows, key), i, klass);
      WithoutBucket(axis, rows, key, i, klass);
      WithoutCounts(axis, rows, key);
    }
  }

  /** The row loop of SQLiteSink.AggregateRoots: add each group's count to its clamped bucket. */
  method GroupedTally(axis: Axis, groups: seq<Group>, ghost rows: seq<RootRow>) returns (total: nat, buckets: seq<Bucket>)
    requires axis.Valid() && IsGrouping(axis, groups, rows)
    requires forall g :: g in groups ==> g.key.1 in {0, 2, 3, 4, 5}
    ensures total == |rows| && buckets == Tally(axis, rows)
  {
    hide CountIn, Falls, Remaining, IsGrouping;
    buckets := StartBuckets(axis);
    total := 0;
    assert groups[0..] == groups;
    forall i | 0 <= i < axis.count
      ensures Pending(axis, buckets[i], groups[0..], groups, i)
    {
      NothingCounted(axis, i);
    }
    var g := 0;
    while g < |groups|
      invariant 0 <= g <= |groups| && |buckets| == axis.count
      invariant total + TotalCount(groups[g..]) == TotalCount(groups)
      invariant forall i :: 0 <= i < axis.count ==> Pending(axis, buckets[i], groups[g..], groups, i)
    {
      var (raw, klass) := groups[g].key;
      var idx := raw;
      if idx < 0 {
        idx := 0;
      }
      if idx >= axis.count {
        idx := axis.count - 1;
      }
      assert groups[g] in groups;
      assert groups[g..][1..] == groups[g + 1..];
      forall i | 0 <= i < axis.count
        ensures Pending(axis, if i == idx then Bump(buckets[i], klass, groups[g].cnt) else buckets[i], groups[g + 1..], groups, i)
      {
        PendingStep(axis, buckets[i], groups[g..], groups, i);
      }
      buckets := buckets[idx := Bump(buckets[idx], klass, groups[g].cnt)];
      total := total + groups[g].cnt;
      g := g + 1;
    }
    GroupsCount(axis, groups, rows, 0, 0);
    forall i | 0 <= i < axis.count
      ensures buckets[i] == BucketOf(axis, rows, i)
    {
      assert groups[g..] == [];
      PendingDone(axis, buckets[i], groups, rows, i);
    }
  }

  lemma NothingCounted(axis: Axis, i: nat)
    requires axis.Valid()
    ensures BucketOf(axis, [], i) == Bucket(axis.since + axis.width * i, 0, 0, 0, 0, 0)
  {}

  /** A bucket plus what the remaining groups will add is what all groups add. */
  predicate Pending(axis: Axis, b: Bucket, rest: seq<Group>, groups: seq<Group>, i: nat)
    requires axis.Valid()
  {
    && b.start == axis.since + axis.width * i
    && b.s2xx + Remaining(axis, rest, i, 2) == Remaining(axis, groups, i, 2)
    && b.s3xx + Remaining(axis, rest, i, 3) == Remaining(axis, groups, i, 3)
    && b.s4xx + Remaining(axis, rest, i, 4) == Remaining(axis, groups, i, 4)
    && b.s5xx + Remaining(axis, rest, i, 5) == Remaining(axis, groups, i, 5)
    && b.other + Remaining(axis, rest, i, 0) == Remaining(axis, groups, i, 0)
  }

  lemma PendingStep(axis: Axis, b: Bucket, rest: seq<Group>, groups: seq<Group>, i: nat)
    requires axis.Valid() && Pending(axis, b, rest, groups, i) && rest != [] && rest[0].key.1 in {0, 2, 3, 4, 5}
    ensures var idx := Clamp(rest[0].key.0, axis.count);
      Pending(axis, if i == idx then Bump(b, rest[0].key.1, rest[0].cnt) else b, rest[1..], groups, i)
  {}

  lemma PendingDone(axis: Axis, b: Bucket, groups: seq<Group>, rows: seq<RootRow>, i: nat)
    requires axis.Valid() && Pending(axis, b, [], groups, i) && IsGrouping(axis, groups, rows)
    ensures b == BucketOf(axis, rows, i)
  {
    hide CountIn, IsGrouping;
    GroupsCount(axis, groups, rows, i, 2);
    GroupsCount(axis, groups, rows, i, 3);
    GroupsCount(axis, groups, rows, i, 4);
    GroupsCount(axis, groups, rows, i, 5);
    GroupsCount(axis, groups, rows, i, 0);
  }
}
