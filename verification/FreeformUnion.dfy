/** A freeform term: the index-friendly `id IN (... UNION ...)` equals a plain disjunction. */
module FreeformUnion {
  import opened Strings
  import opened SearchQuery
  import opened Sql
  import opened CompileSql
  import opened CompilePredicate
  import opened BackendAgreement

  // The plain reading: the row's own fields, or one correlated event's fields.

  predicate TextMatches(v: Value, t: Term) {
    v.Text? && MatchString(v.s, t)
  }

  predicate FoldMatches(v: Value, t: Term) {
    TextOf(v).Some? && ContainsFold(TextOf(v).value, t.value)
  }

  predicate OwnMatches(r: RequestRow, t: Term) {
    || MatchString(r.host, t)
    || MatchString(r.path, t)
    || MatchString(r.service, t)
    || ContainsFold(r.body, t.value)
    || FoldMatches(r.headers, t)
  }

  predicate EventMatches(ev: EventRow, t: Term) {
    || TextMatches(ev.requestPath, t)
    || FoldMatches(ev.requestBody, t)
    || FoldMatches(ev.requestHeaders, t)
    || FoldMatches(ev.responseBody, t)
    || FoldMatches(ev.responseHeaders, t)
  }

  predicate RowMatches(db: Db, r: RequestRow, t: Term) {
    OwnMatches(r, t) || exists ev :: ev in db.events && Correlated(r, ev) && EventMatches(ev, t)
  }

  predicate OrphanMatches(ev: EventRow, t: Term) {
    MatchString(ev.service, t) || EventMatches(ev, t)
  }

  /** An event column holds text or JSON, or NULL. */
  predicate Typed(ev: EventRow) {
    && (ev.requestPath.Text? || ev.requestPath.Null?)
    && !ev.requestBody.Int? && !ev.requestHeaders.Int? && !ev.responseBody.Int? && !ev.responseHeaders.Int?
  }

  // Conditions that are True, whatever NULLs they met on the way

  lemma IndexedTrue(col: Column, t: Term, env: Env)
    requires ColumnValue(col, env).Text? || ColumnValue(col, env).Null?
    ensures Eval(IndexedMeaning(col, t), env) == True <==> TextMatches(ColumnValue(col, env), t)
  {
    if ColumnValue(col, env).Text? { IndexedAgrees(col, t, env, ColumnValue(col, env).s); }
  }

  lemma ScannedTrue(col: Column, t: Term, env: Env)
    ensures Eval(ScannedMeaning(col, t), env) == True <==> FoldMatches(ColumnValue(col, env), t)
  {
    var s := TextOf(ColumnValue(col, env));
    if s.Some? { ScannedAgrees(col, t, env, s.value); }
  }

  lemma {:induction false} OrChainTrue(es: seq<Expr<Value>>, env: Env)
    requires es != []
    ensures Eval(OrChain(es), env) == True <==> exists i :: 0 <= i < |es| && Eval(es[i], env) == True
  {
    if |es| > 1 {
      OrChainTrue(es[..|es| - 1], env);
    }
  }

  lemma {:induction false} UnionChainSelected(ss: seq<Select<Value>>, db: Db, id: string)
    requires ss != []
    ensures Selected(UnionChain(ss), db, id) <==> exists i :: 0 <= i < |ss| && Selected(ss[i], db, id)
  {
    if |ss| > 1 {
      UnionChainSelected(ss[..|ss| - 1], db, id);
    }
  }

  /** Both freeform unions have six arms. */
  lemma SixArms(ss: seq<Select<Value>>, db: Db, id: string)
    requires |ss| == 6
    ensures Selected(UnionChain(ss), db, id) <==>
      Selected(ss[0], db, id) || Selected(ss[1], db, id) || Selected(ss[2], db, id)
      || Selected(ss[3], db, id) || Selected(ss[4], db, id) || Selected(ss[5], db, id)
  {
    hide Selected, UnionChain;
    UnionChainSelected(ss, db, id);
  }

  /** The conditions on event columns, shared by the joined arm and the orphan arms. */
  lemma EventTrue(env: Env, t: Term)
    requires env.ev.Some? && Typed(env.ev.value)
    ensures var es := FreeformEventMeaning(t);
      EventMatches(env.ev.value, t) <==>
      (Eval(es[0], env) == True || Eval(es[1], env) == True || Eval(es[2], env) == True
       || Eval(es[3], env) == True || Eval(es[4], env) == True)
  {
    hide IndexedMeaning, ScannedMeaning, TextMatches, FoldMatches, Eval, ColumnValue;
    EventColumns(env);
    IndexedTrue(ERequestPath, t, env);
    ScannedTrue(ERequestBody, t, env);
    ScannedTrue(ERequestHeaders, t, env);
    ScannedTrue(EResponseBody, t, env);
    ScannedTrue(EResponseHeaders, t, env);
  }

  lemma EventChainTrue(env: Env, t: Term)
    requires env.ev.Some? && Typed(env.ev.value)
    ensures Eval(OrChain(FreeformEventMeaning(t)), env) == True <==> EventMatches(env.ev.value, t)
  {
    hide IndexedMeaning, ScannedMeaning, OrChain, Eval, EventMatches;
    OrChainTrue(FreeformEventMeaning(t), env);
    EventTrue(env, t);
  }

  // Subqueries over whole tables, seen from one row

  lemma SameRequest(db: Db, r: RequestRow, r': RequestRow)
    requires UniqueIds(db) && r in db.requests && r' in db.requests && r.id == r'.id
    ensures r == r'
  {}

  lemma SameEvent(db: Db, x: EventRow, x': EventRow)
    requires UniqueIds(db) && x in db.events && x' in db.events && x.id == x'.id
    ensures x == x'
  {}

  lemma RequestArm(e: Expr<Value>, db: Db, r: RequestRow)
    requires UniqueIds(db) && r in db.requests
    ensures Selected(RequestsWhere(e), db, r.id) <==> Eval(e, AtRequest(db, r)) == True
  {
    hide Eval, UniqueIds;
    forall r' | r' in db.requests && r'.id == r.id
      ensures r' == r
    {
      SameRequest(db, r, r');
    }
  }

  lemma EventArm(e: Expr<Value>, db: Db, x: EventRow)
    requires UniqueIds(db) && x in db.events
    ensures Selected(EventsWhere(e), db, x.id) <==> Eval(e, AtEvent(db, x)) == True
  {
    hide Eval, UniqueIds;
    forall x' | x' in db.events && x'.id == x.id
      ensures x' == x
    {
      SameEvent(db, x, x');
    }
  }

  lemma JoinArm(t: Term, db: Db, r: RequestRow)
    requires UniqueIds(db) && r in db.requests && forall ev :: ev in db.events ==> Typed(ev)
    ensures Selected(JoinWhere(OrChain(FreeformEventMeaning(t))), db, r.id) <==>
      exists ev :: ev in db.events && Correlated(r, ev) && EventMatches(ev, t)
  {
    hide Eval, UniqueIds, EventMatches, OrChain, Typed;
    forall r' | r' in db.requests && r'.id == r.id
      ensures r' == r
    {
      SameRequest(db, r, r');
    }
    forall ev | ev in db.events
      ensures Eval(OrChain(FreeformEventMeaning(t)), Env(db, Some(r), Some(ev))) == True <==> EventMatches(ev, t)
    {
      EventChainTrue(Env(db, Some(r), Some(ev)), t);
    }
  }

  lemma OwnTrue(db: Db, r: RequestRow, t: Term)
    ensures var es, env := FreeformOwnMeaning(t), AtRequest(db, r);
      OwnMatches(r, t) <==>
      (Eval(es[0], env) == True || Eval(es[1], env) == True || Eval(es[2], env) == True
       || Eval(es[3], env) == True || Eval(es[4], env) == True)
  {
    hide IndexedMeaning, ScannedMeaning, MatchString, ContainsFold;
    var env := AtRequest(db, r);
    IndexedTrue(CrHost, t, env);
    IndexedTrue(CrPath, t, env);
    IndexedTrue(CrService, t, env);
    ScannedTrue(CrBody, t, env);
    ScannedTrue(CrHeaders, t, env);
  }

  /** The UNION form over whole tables is the plain disjunction on this row, and is never
      Unknown, so negation is its exact complement even when event columns are NULL. */
  lemma FreeformIsDisjunction(t: Term, db: Db, r: RequestRow)
    requires WellFormed(t) && t.field == Freeform
    requires UniqueIds(db) && r in db.requests && forall ev :: ev in db.events ==> Typed(ev)
    ensures Eval(Meaning(Where, t).value, AtRequest(db, r)) == OfBool(RowMatches(db, r, t) != t.negated)
  {
    hide Selected, UnionChain, IndexedMeaning, ScannedMeaning, OrChain, EventMatches, OwnMatches, UniqueIds, Typed, Correlated;
    var es, ss := FreeformOwnMeaning(t), FreeformArmsMeaning(t);
    SixArms(ss, db, r.id);
    RequestArm(es[0], db, r);
    RequestArm(es[1], db, r);
    RequestArm(es[2], db, r);
    RequestArm(es[3], db, r);
    RequestArm(es[4], db, r);
    JoinArm(t, db, r);
    OwnTrue(db, r, t);
    assert Selected(UnionChain(ss), db, r.id) <==> RowMatches(db, r, t);
  }

  lemma FreeformOrphanIsDisjunction(t: Term, db: Db, x: EventRow)
    requires WellFormed(t) && t.field == Freeform
    requires UniqueIds(db) && x in db.events && Typed(x)
    ensures Eval(Meaning(Orphan, t).value, AtEvent(db, x)) == OfBool(OrphanMatches(x, t) != t.negated)
  {
    hide Selected, UnionChain, IndexedMeaning, ScannedMeaning, OrChain, OrphanMatches, UniqueIds, Typed;
    var es, ss := FreeformOrphanMeaning(t), FreeformOrphanArmsMeaning(t);
    SixArms(ss, db, x.id);
    EventArm(es[0], db, x);
    EventArm(es[1], db, x);
    EventArm(es[2], db, x);
    EventArm(es[3], db, x);
    EventArm(es[4], db, x);
    EventArm(es[5], db, x);
    OrphanTrue(db, x, t);
    assert Selected(UnionChain(ss), db, x.id) <==> OrphanMatches(x, t);
  }

  lemma OrphanTrue(db: Db, x: EventRow, t: Term)
    requires Typed(x)
    ensures var es, env := FreeformOrphanMeaning(t), AtEvent(db, x);
      OrphanMatches(x, t) <==>
      (Eval(es[0], env) == True || Eval(es[1], env) == True || Eval(es[2], env) == True
       || Eval(es[3], env) == True || Eval(es[4], env) == True || Eval(es[5], env) == True)
  {
    hide IndexedMeaning, ScannedMeaning, Eval, EventMatches, MatchString, Typed, ColumnValue;
    var env := AtEvent(db, x);
    EventColumns(env);
    IndexedAgrees(EService, t, env, x.service);
    EventTrue(env, t);
  }
}
