/** The UNION query behind the list and the histogram, with its positional arguments. */
module RootsQuery {
  import opened Strings
  import opened SearchQuery
  import opened Inspect
  import opened Sql
  import opened CompileSql
  import opened Arguments

  /** The request arm (WHERE and HAVING) and, unless a term hides it, the orphan arm. */
  datatype Roots<V> = Roots(conds: seq<Expr<V>>, having: seq<Expr<V>>, orphans: Option<seq<Expr<V>>>)

  /** The three statements around the union; holes are listed in text order. */
  datatype Statement<V> =
    | Page(inner: Roots<V>, fetch: V)                    // SELECT * FROM (inner) ORDER BY ... LIMIT ?
    | Count(inner: Roots<V>)                             // SELECT COUNT(*) FROM (inner)
    | Buckets(since: V, width: V, inner: Roots<V>)       // SELECT (timestamp - ?) / ? ... FROM (inner) GROUP BY ...

  // Binding

  function AllHoles(es: seq<Expr<Hole>>): nat {
    if es == [] then 0 else Holes(es[0]) + AllHoles(es[1..])
  }

  function BindAll(es: seq<Expr<Hole>>, args: seq<Value>): seq<Expr<Value>>
    requires |args| == AllHoles(es)
  {
    if es == [] then []
    else [Bind(es[0], args[..Holes(es[0])])] + BindAll(es[1..], args[Holes(es[0])..])
  }

  predicate AllBind(es: seq<Expr<Hole>>, args: seq<Value>, bs: seq<Expr<Value>>) {
    |args| == AllHoles(es) && BindAll(es, args) == bs
  }

  function RootsHoles(r: Roots<Hole>): nat {
    AllHoles(r.conds) + AllHoles(r.having) + (if r.orphans.Some? then AllHoles(r.orphans.value) else 0)
  }

  function BindRoots(r: Roots<Hole>, args: seq<Value>): Roots<Value>
    requires |args| == RootsHoles(r)
  {
    var w, h := AllHoles(r.conds), AllHoles(r.having);
    Roots(BindAll(r.conds, args[..w]), BindAll(r.having, args[w..w + h]),
          if r.orphans.Some? then Some(BindAll(r.orphans.value, args[w + h..])) else None)
  }

  function StatementHoles(s: Statement<Hole>): nat {
    match s
    case Page(inner, _) => RootsHoles(inner) + 1
    case Count(inner) => RootsHoles(inner)
    case Buckets(_, _, inner) => 2 + RootsHoles(inner)
  }

  function BindStatement(s: Statement<Hole>, args: seq<Value>): Statement<Value>
    requires |args| == StatementHoles(s)
  {
    match s
    case Page(inner, _) => Page(BindRoots(inner, args[..|args| - 1]), args[|args| - 1])
    case Count(inner) => Count(BindRoots(inner, args))
    case Buckets(_, _, inner) => Buckets(args[0], args[1], BindRoots(inner, args[2..]))
  }

  // The intended query

  function CursorCond<V>(ts: Column, id: Column, t1: V, t2: V, i: V): Expr<V> {
    Or(Lt(ts, t1), And(Eq(ts, t2), Lt(id, i)))
  }

  function TimeMeaning(ts: Column, id: Column, q: InspectQuery, cursor: Option<Cursor>): seq<Expr<Value>> {
    (if cursor.Some? then
       var n := Int(cursor.value.timestamp);
       [CursorCond(ts, id, n, n, Text(cursor.value.id))]
     else [])
    + (if q.since.Some? then [Ge(ts, Int(q.since.value))] else [])
    + (if q.until.Some? then [Lt(ts, Int(q.until.value))] else [])
  }

  function RootsMeaning(q: InspectQuery, cursor: Option<Cursor>): Roots<Value>
    requires AllWellFormed(q.query)
  {
    Roots(
      TimeMeaning(CrTimestamp, CrId, q, cursor) + Meanings(Where, q.query),
      Meanings(Having, q.query),
      if HasRequestOnlyTerm(q.query) then None
      else Some(TimeMeaning(ETimestamp, EId, q, cursor) + Meanings(Orphan, q.query)))
  }

  // The builder

  lemma {:induction false} AllBindAppend(es: seq<Expr<Hole>>, a: seq<Value>, bs: seq<Expr<Value>>,
                                         es': seq<Expr<Hole>>, a': seq<Value>, bs': seq<Expr<Value>>)
    requires AllBind(es, a, bs) && AllBind(es', a', bs')
    ensures AllBind(es + es', a + a', bs + bs')
  {
    hide Holes, Bind;
    if es == [] {
      assert es + es' == es' && a + a' == a' && bs + bs' == bs';
    } else {
      var n := Holes(es[0]);
      AllBindAppend(es[1..], a[n..], bs[1..], es', a', bs');
      assert (es + es')[1..] == es[1..] + es';
      assert (a + a')[..n] == a[..n] && (a + a')[n..] == a[n..] + a';
      assert bs + bs' == [bs[0]] + (bs[1..] + bs');
    }
  }

  lemma OneBinds(e: Expr<Hole>, args: seq<Value>, b: Expr<Value>)
    requires Binds(e, args, b)
    ensures AllBind([e], args, [b])
  {
    hide Holes, Bind;
    assert args[..|args|] == args && args[|args|..] == [] && [e][1..] == [];
    assert AllHoles([e]) == Holes(e) + AllHoles([]);
    assert BindAll([e], args) == [b] + BindAll([], []);
  }

  lemma {:induction false} ClausesBind(arm: Arm, q: Query)
    requires AllWellFormed(q)
    ensures AllBind(Clauses(arm, q), Args(arm, q), Meanings(arm, q))
  {
    hide CompileTerm, Meaning, AllBind, WellFormed, Binds;
    if q == [] {
      NothingBinds();
    } else {
      ClausesBind(arm, q[1..]);
      TermBinds(arm, q[0]);
      var f, m := CompileTerm(arm, q[0]), Meaning(arm, q[0]);
      if f.Some? {
        OneBinds(f.value.sql, f.value.args, m.value);
        AllBindAppend([f.value.sql], f.value.args, [m.value],
          Clauses(arm, q[1..]), Args(arm, q[1..]), Meanings(arm, q[1..]));
      } else {
        assert Clauses(arm, q) == [] + Clauses(arm, q[1..]) == Clauses(arm, q[1..]);
        assert Args(arm, q) == [] + Args(arm, q[1..]) == Args(arm, q[1..]);
        assert Meanings(arm, q) == [] + Meanings(arm, q[1..]) == Meanings(arm, q[1..]);
      }
    }
  }

  lemma NothingBinds()
    ensures AllBind([], [], [])
  {}

  /** Cursor, since and until conditions of one arm, appended one by one. */
  method TimeClauses(ts: Column, id: Column, q: InspectQuery, cursor: Option<Cursor>)
    returns (conds: seq<Expr<Hole>>, args: seq<Value>)
    ensures AllBind(conds, args, TimeMeaning(ts, id, q, cursor))
  {
    hide AllBind;
    conds, args := [], [];
    ghost var bs: seq<Expr<Value>> := [];
    NothingBinds();
    if cursor.Some? {
      var n := Int(cursor.value.timestamp);
      var e, a := CursorCond(ts, id, Hole, Hole, Hole), [n, n, Text(cursor.value.id)];
      CursorBinds(ts, id, n, Text(cursor.value.id));
      OneBinds(e, a, CursorCond(ts, id, n, n, Text(cursor.value.id)));
      AllBindAppend(conds, args, bs, [e], a, [CursorCond(ts, id, n, n, Text(cursor.value.id))]);
      conds, args, bs := conds + [e], args + a, bs + [CursorCond(ts, id, n, n, Text(cursor.value.id))];
    }
    if q.since.Some? {
      var v := Int(q.since.value);
      OneBinds(Ge(ts, Hole), [v], Ge(ts, v));
      AllBindAppend(conds, args, bs, [Ge(ts, Hole)], [v], [Ge(ts, v)]);
      conds, args, bs := conds + [Ge(ts, Hole)], args + [v], bs + [Ge(ts, v)];
    }
    if q.until.Some? {
      var v := Int(q.until.value);
      OneBinds(Lt(ts, Hole), [v], Lt(ts, v));
      AllBindAppend(conds, args, bs, [Lt(ts, Hole)], [v], [Lt(ts, v)]);
      conds, args, bs := conds + [Lt(ts, Hole)], args + [v], bs + [Lt(ts, v)];
    }
    assert bs == TimeMeaning(ts, id, q, cursor);
  }

  lemma CursorBinds(ts: Column, id: Column, n: Value, i: Value)
    ensures Binds(CursorCond(ts, id, Hole, Hole, Hole), [n, n, i], CursorCond(ts, id, n, n, i))
  {
    assert [n, n, i][1..] == [n, i];
    assert Binds(And(Eq(ts, Hole), Lt(id, Hole)), [n, i], And(Eq(ts, n), Lt(id, i)));
  }

  /** buildRootsUnionSQL: bound left to right, the union is the intended one. */
  method BuildRootsUnion(q: InspectQuery, cursor: Option<Cursor>) returns (roots: Roots<Hole>, args: seq<Value>)
    requires AllWellFormed(q.query)
    ensures |args| == RootsHoles(roots) && BindRoots(roots, args) == RootsMeaning(q, cursor)
  {
    hide TimeMeaning, Meanings, Clauses, Args, BindAll, AllHoles, WellFormed;
    var conds, reqArgs := TimeClauses(CrTimestamp, CrId, q, cursor);
    var termSql, termArgs := Compile(Where, q.query);
    ClausesBind(Where, q.query);
    AllBindAppend(conds, reqArgs, TimeMeaning(CrTimestamp, CrId, q, cursor), termSql, termArgs, Meanings(Where, q.query));
    conds, reqArgs := conds + termSql, reqArgs + termArgs;

    var having, havingArgs := Compile(Having, q.query);
    ClausesBind(Having, q.query);

    args := reqArgs + havingArgs;
    assert args[..|reqArgs|] == reqArgs && args[|reqArgs|..|reqArgs| + |havingArgs|] == havingArgs;
    if HasRequestOnlyTerm(q.query) {
      return Roots(conds, having, None), args;
    }

    var orphans, orphanArgs := TimeClauses(ETimestamp, EId, q, cursor);
    var orphanSql, orphArgs := Compile(Orphan, q.query);
    ClausesBind(Orphan, q.query);
    AllBindAppend(orphans, orphanArgs, TimeMeaning(ETimestamp, EId, q, cursor), orphanSql, orphArgs, Meanings(Orphan, q.query));
    orphans, orphanArgs := orphans + orphanSql, orphanArgs + orphArgs;

    roots := Roots(conds, having, Some(orphans));
    args := reqArgs + havingArgs + orphanArgs;
    assert args[..|reqArgs|] == reqArgs && args[|reqArgs|..|reqArgs| + |havingArgs|] == havingArgs;
    assert args[|reqArgs| + |havingArgs|..] == orphanArgs;
  }

  /** ReadRoots appends the LIMIT argument last. */
  method PageStatement(q: InspectQuery, limit: nat, cursor: Option<Cursor>) returns (s: Statement<Hole>, args: seq<Value>)
    requires AllWellFormed(q.query)
    ensures |args| == StatementHoles(s)
    ensures BindStatement(s, args) == Page(RootsMeaning(q, cursor), Int(limit + 1))
  {
    hide RootsMeaning, BindRoots, RootsHoles;
    var roots, inner := BuildRootsUnion(q, cursor);
    s, args := Page(roots, Hole), inner + [Int(limit + 1)];
    assert args[..|args| - 1] == inner;
  }

  /** AggregateRoots puts the bucket arguments first, and drops the cursor. */
  method BucketStatement(q: InspectQuery, since: int, width: int) returns (s: Statement<Hole>, args: seq<Value>)
    requires AllWellFormed(q.query)
    ensures |args| == StatementHoles(s)
    ensures BindStatement(s, args) == Buckets(Int(since), Int(width), RootsMeaning(q, None))
  {
    hide RootsMeaning, BindRoots, RootsHoles;
    var roots, inner := BuildRootsUnion(q, None);
    s, args := Buckets(Hole, Hole, roots), [Int(since), Int(width)] + inner;
    assert args[2..] == inner;
  }
}
