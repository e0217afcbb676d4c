/** Which rows the UNION query returns. */
module RootsRows {
  import opened Strings
  import opened SearchQuery
  import opened Inspect
  import opened Sql
  import opened CompileSql
  import opened RootsQuery
  import opened CompilePredicate

  ghost predicate RequestReturned(roots: Roots<Value>, db: Db, r: RequestRow) {
    var env := Env(db, Some(r), None);
    r in db.requests && AllTrue(roots.conds, env) && AllTrue(roots.having, env)
  }

  /** The orphan arm: a LEFT JOIN that found no request, then the conditions. */
  ghost predicate OrphanReturned(roots: Roots<Value>, db: Db, x: EventRow) {
    && roots.orphans.Some?
    && x in db.events
    && (forall r :: r in db.requests ==> !Correlated(r, x))
    && AllTrue(roots.orphans.value, Env(db, None, Some(x)))
  }

  /** Every term is answered by the request arm once: in WHERE or in HAVING, never both. */
  lemma ExactlyOneClause(t: Term)
    requires WellFormed(t)
    ensures CompileTerm(Where, t).Some? <==> CompileTerm(Having, t).None?
  {}

  lemma {:induction false} EveryTermOnce(q: Query)
    requires AllWellFormed(q)
    ensures forall t :: t in q ==> (CompileTerm(Where, t).Some? <==> CompileTerm(Having, t).None?)
    ensures |Clauses(Where, q)| + |Clauses(Having, q)| == |q|
  {
    hide CompileTerm, WellFormed;
    if q != [] {
      ExactlyOneClause(q[0]);
      EveryTermOnce(q[1..]);
      assert q == [q[0]] + q[1..];
    }
  }

  /** A term holds for a request row when the condition it was compiled to is True. */
  ghost predicate HoldsForRequest(t: Term, db: Db, r: RequestRow)
    requires WellFormed(t)
  {
    var env := Env(db, Some(r), None);
    && (Meaning(Where, t).Some? ==> Eval(Meaning(Where, t).value, env) == True)
    && (Meaning(Having, t).Some? ==> Eval(Meaning(Having, t).value, env) == True)
  }

  ghost predicate HoldsForOrphan(t: Term, db: Db, x: EventRow)
    requires WellFormed(t)
  {
    Meaning(Orphan, t).Some? ==> Eval(Meaning(Orphan, t).value, Env(db, None, Some(x))) == True
  }

  lemma {:induction false} AllMeaningsTrue(arm: Arm, q: Query, env: Env)
    requires AllWellFormed(q)
    ensures AllTrue(Meanings(arm, q), env) <==>
      forall t :: t in q && Meaning(arm, t).Some? ==> Eval(Meaning(arm, t).value, env) == True
  {
    hide Meaning, WellFormed, Eval;
    if q != [] {
      AllMeaningsTrue(arm, q[1..], env);
      assert q == [q[0]] + q[1..];
    }
  }

  lemma CursorTrue(ts: Column, id: Column, c: Cursor, env: Env, n: int, i: string)
    requires ColumnValue(ts, env) == Int(n) && ColumnValue(id, env) == Text(i)
    ensures var v := Int(c.timestamp);
      Eval(CursorCond(ts, id, v, v, Text(c.id)), env) == OfBool(AfterCursor(n, i, Some(c)))
  {
    hide ColumnValue, Less;
    var v := Int(c.timestamp);
    assert Eval(Lt(id, Text(c.id)), env) == OfBool(Less(i, c.id));
    assert Eval(Eq(ts, v), env) == OfBool(n == c.timestamp);
    assert Eval(And(Eq(ts, v), Lt(id, Text(c.id))), env) == OfBool(n == c.timestamp && Less(i, c.id));
    assert Eval(Lt(ts, v), env) == OfBool(n < c.timestamp);
  }

  lemma TimeTrue(ts: Column, id: Column, q: InspectQuery, cursor: Option<Cursor>, env: Env, n: int, i: string)
    requires ColumnValue(ts, env) == Int(n) && ColumnValue(id, env) == Text(i)
    ensures AllTrue(TimeMeaning(ts, id, q, cursor), env) <==> AfterCursor(n, i, cursor) && InWindow(q, n)
  {
    hide ColumnValue, Less;
    var es := TimeMeaning(ts, id, q, cursor);
    if cursor.Some? {
      var v := Int(cursor.value.timestamp);
      var c := CursorCond(ts, id, v, v, Text(cursor.value.id));
      assert es[0] == c && c in es;
      CursorTrue(ts, id, cursor.value, env, n, i);
    }
    if q.since.Some? {
      var e := Ge(ts, Int(q.since.value));
      assert es[if cursor.Some? then 1 else 0] == e && e in es;
      assert Eval(e, env) == OfBool(q.since.value <= n);
    }
    if q.until.Some? {
      var e := Lt(ts, Int(q.until.value));
      assert es[|es| - 1] == e && e in es;
      assert Eval(e, env) == OfBool(n < q.until.value);
    }
  }

  lemma AllTrueAppend(a: seq<Expr<Value>>, b: seq<Expr<Value>>, env: Env)
    ensures AllTrue(a + b, env) <==> AllTrue(a, env) && AllTrue(b, env)
  {}

  lemma RequestArmExact(q: InspectQuery, cursor: Option<Cursor>, db: Db, r: RequestRow)
    requires AllWellFormed(q.query)
    ensures RequestReturned(RootsMeaning(q, cursor), db, r) <==>
      && r in db.requests
      && AfterCursor(r.timestamp, r.id, cursor)
      && InWindow(q, r.timestamp)
      && forall t :: t in q.query ==> HoldsForRequest(t, db, r)
  {
    hide TimeMeaning, Meanings, WellFormed, Meaning, Eval, AllTrue, AfterCursor, InWindow;
    var env := Env(db, Some(r), None);
    TimeTrue(CrTimestamp, CrId, q, cursor, env, r.timestamp, r.id);
    AllTrueAppend(TimeMeaning(CrTimestamp, CrId, q, cursor), Meanings(Where, q.query), env);
    AllMeaningsTrue(Where, q.query, env);
    AllMeaningsTrue(Having, q.query, env);
  }

  lemma OrphanArmExact(q: InspectQuery, cursor: Option<Cursor>, db: Db, x: EventRow)
    requires AllWellFormed(q.query)
    ensures OrphanReturned(RootsMeaning(q, cursor), db, x) <==>
      && !HasRequestOnlyTerm(q.query)
      && x in db.events
      && (forall r :: r in db.requests ==> !Correlated(r, x))
      && AfterCursor(x.timestamp, x.id, cursor)
      && InWindow(q, x.timestamp)
      && forall t :: t in q.query ==> HoldsForOrphan(t, db, x)
  {
    hide TimeMeaning, Meanings, WellFormed, Meaning, Eval, AllTrue, AfterCursor, InWindow, HasRequestOnlyTerm, Correlated;
    var env := Env(db, None, Some(x));
    TimeTrue(ETimestamp, EId, q, cursor, env, x.timestamp, x.id);
    AllTrueAppend(TimeMeaning(ETimestamp, EId, q, cursor), Meanings(Orphan, q.query), env);
    AllMeaningsTrue(Orphan, q.query, env);
  }

  /** A status term and its negation split the request rows exactly when the row has a
      response status: a row without one matches neither. */
  lemma StatusNegationSplitsIff(t: Term, db: Db, r: RequestRow)
    requires WellFormed(t) && t.field == Status && !t.negated
    ensures WellFormed(t.(negated := true))
    ensures (HoldsForRequest(t, db, r) <==> !HoldsForRequest(t.(negated := true), db, r)) <==>
      MaxStatus(db.events, r.correlationID).Int?
  {
    MaxStatusExact(db.events, r.correlationID);
  }

  /** A request without a response: `status:200` and `-status:200` both miss it. */
  lemma StatusNegationMissesRow(r: RequestRow)
    ensures var t := Term(Status, "200", Exactly, false, false, "", Some(Exact(200)), None);
      var db := Db([r], []);
      !HoldsForRequest(t, db, r) && !HoldsForRequest(t.(negated := true), db, r)
  {
    assert MaxStatus([], r.correlationID) == Null;
  }

  /** A response event of the correlation id with a status. */
  predicate HasStatus(x: EventRow, correlationID: string) {
    x.correlationID == correlationID && x.isResponse && x.status.Int?
  }

  /** The aggregated status is the greatest one among the correlated responses, NULL when
      there is none. */
  lemma {:induction false} MaxStatusExact(events: seq<EventRow>, correlationID: string)
    ensures var m := MaxStatus(events, correlationID);
      && (m.Null? ==> forall x :: x in events ==> !HasStatus(x, correlationID))
      && (!m.Null? ==> m.Int? && exists x :: x in events && HasStatus(x, correlationID) && x.status == m)
      && (m.Int? ==> forall x :: x in events && HasStatus(x, correlationID) ==> x.status.i <= m.i)
  {
    if events != [] {
      MaxStatusExact(events[1..], correlationID);
      assert events == [events[0]] + events[1..];
    }
  }

  /** A status term holds for a request row exactly when that greatest status exists and
      matches, or for a negated term exists and does not match. */
  lemma StatusTermExact(t: Term, db: Db, r: RequestRow)
    requires WellFormed(t) && t.field == Status
    ensures var m := MaxStatus(db.events, r.correlationID);
      HoldsForRequest(t, db, r) <==> m.Int? && StatusMatches(t.status.value, m.i) != t.negated
  {
    hide MaxStatus;
    MaxStatusExact(db.events, r.correlationID);
    var env, m := Env(db, Some(r), None), MaxStatus(db.events, r.correlationID);
    var e := HavingMeaning(t).value;
    match t.status.value {
      case Exact(n) => assert e == MaxStatusEq(Int(n));
      case Class(c) => assert e == MaxStatusBetween(Int(ClassLow(c)), Int(ClassHigh(c)));
    }
    assert Eval(e, env) == if m.Int? then OfBool(StatusMatches(t.status.value, m.i)) else Unknown;
    assert t.negated ==> Eval(Not(e), env) == Not3(Eval(e, env));
  }
}
