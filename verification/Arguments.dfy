/** The k-th placeholder of every emitted query receives the k-th argument. */
module Arguments {
  import opened Strings
  import opened SearchQuery
  import opened Sql
  import opened CompileSql

  /** Reading `args` left to right fills the holes of `sql` as `e` has them. */
  predicate Binds(sql: Expr<Hole>, args: seq<Value>, e: Expr<Value>) {
    |args| == Holes(sql) && Bind(sql, args) == e
  }

  predicate SelectBinds(s: Select<Hole>, args: seq<Value>, b: Select<Value>) {
    |args| == SelectHoles(s) && BindSelect(s, args) == b
  }

  lemma BindsOr(l: Expr<Hole>, la: seq<Value>, e: Expr<Value>, r: Expr<Hole>, ra: seq<Value>, e': Expr<Value>)
    requires Binds(l, la, e) && Binds(r, ra, e')
    ensures Binds(Or(l, r), la + ra, Or(e, e'))
  {
    assert (la + ra)[..|la|] == la && (la + ra)[|la|..] == ra;
  }

  lemma BindsUnion(l: Select<Hole>, la: seq<Value>, b: Select<Value>, r: Select<Hole>, ra: seq<Value>, b': Select<Value>)
    requires SelectBinds(l, la, b) && SelectBinds(r, ra, b')
    ensures SelectBinds(Union(l, r), la + ra, Union(b, b'))
  {
    assert (la + ra)[..|la|] == la && (la + ra)[|la|..] == ra;
  }

  function Flatten(parts: seq<seq<Value>>): seq<Value> {
    if parts == [] then [] else Flatten(parts[..|parts| - 1]) + parts[|parts| - 1]
  }

  lemma {:induction false} OrChainBinds(es: seq<Expr<Hole>>, parts: seq<seq<Value>>, bs: seq<Expr<Value>>)
    requires |es| == |parts| == |bs| > 0
    requires forall i :: 0 <= i < |es| ==> Binds(es[i], parts[i], bs[i])
    ensures Binds(OrChain(es), Flatten(parts), OrChain(bs))
  {
    hide Binds;
    var n := |es| - 1;
    if n == 0 {
      assert Flatten(parts) == Flatten(parts[..0]) + parts[0] == parts[0];
    } else {
      OrChainBinds(es[..n], parts[..n], bs[..n]);
      BindsOr(OrChain(es[..n]), Flatten(parts[..n]), OrChain(bs[..n]), es[n], parts[n], bs[n]);
    }
  }

  lemma {:induction false} UnionChainBinds(ss: seq<Select<Hole>>, parts: seq<seq<Value>>, bs: seq<Select<Value>>)
    requires |ss| == |parts| == |bs| > 0
    requires forall i :: 0 <= i < |ss| ==> SelectBinds(ss[i], parts[i], bs[i])
    ensures SelectBinds(UnionChain(ss), Flatten(parts), UnionChain(bs))
  {
    hide SelectBinds;
    var n := |ss| - 1;
    if n == 0 {
      assert Flatten(parts) == Flatten(parts[..0]) + parts[0] == parts[0];
    } else {
      UnionChainBinds(ss[..n], parts[..n], bs[..n]);
      BindsUnion(UnionChain(ss[..n]), Flatten(parts[..n]), UnionChain(bs[..n]), ss[n], parts[n], bs[n]);
    }
  }

  lemma {:induction false} FlattenOnes(vs: seq<Value>)
    ensures Flatten(seq(|vs|, i requires 0 <= i < |vs| => [vs[i]])) == vs
  {
    var parts := seq(|vs|, i requires 0 <= i < |vs| => [vs[i]]);
    if vs != [] {
      var n := |vs| - 1;
      FlattenOnes(vs[..n]);
      assert parts[..n] == seq(n, i requires 0 <= i < n => [vs[..n][i]]);
      assert vs == vs[..n] + [vs[n]];
    }
  }

  // One term

  lemma FreeformBinds(t: Term)
    ensures Binds(FreeformPredicate(t).sql, FreeformPredicate(t).args, RequestIdIn(UnionChain(FreeformArmsMeaning(t))))
  {
    hide IndexedArg, Needle, OrChain, UnionChain, Flatten;
    var a, n := IndexedArg(t), Needle(t);
    var eventArgs := [a, n, n, n, n];
    var ones := seq(5, i requires 0 <= i < 5 => [eventArgs[i]]);
    FlattenOnes(eventArgs);
    OrChainBinds(FreeformEventSql(t), ones, FreeformEventMeaning(t));
    var ownArgs := [a, a, a, n, n];
    var own := seq(5, i requires 0 <= i < 5 => [ownArgs[i]]);
    FlattenOnes(ownArgs);
    UnionChainBinds(FreeformArms(t), own + [eventArgs], FreeformArmsMeaning(t));
    FlattenSnoc(own, eventArgs);
    assert ownArgs + eventArgs == FreeformPredicate(t).args;
  }

  lemma FlattenSnoc(parts: seq<seq<Value>>, last: seq<Value>)
    ensures Flatten(parts + [last]) == Flatten(parts) + last
  {
    assert (parts + [last])[..|parts|] == parts;
  }

  lemma FreeformOrphanBinds(t: Term)
    ensures Binds(FreeformOrphanPredicate(t).sql, FreeformOrphanPredicate(t).args,
      EventIdIn(UnionChain(FreeformOrphanArmsMeaning(t))))
  {
    hide IndexedArg, Needle, UnionChain, Flatten;
    var args := FreeformOrphanPredicate(t).args;
    FlattenOnes(args);
    UnionChainBinds(FreeformOrphanArms(t), seq(6, i requires 0 <= i < 6 => [args[i]]), FreeformOrphanArmsMeaning(t));
  }

  lemma BindsExists(sql: Expr<Hole>, args: seq<Value>, e: Expr<Value>)
    requires Binds(sql, args, e)
    ensures Binds(ExistsEvent(sql), args, ExistsEvent(e))
  {}

  /** `own OR EXISTS (... req OR resp)`: the shape of both header conditions. */
  lemma HeaderShapeBinds(own: Expr<Hole>, req: Expr<Hole>, resp: Expr<Hole>, args: seq<Value>,
                         own': Expr<Value>, req': Expr<Value>, resp': Expr<Value>)
    requires Binds(own, args, own') && Binds(req, args, req') && Binds(resp, args, resp')
    ensures Binds(Or(req, resp), args + args, Or(req', resp'))
    ensures Binds(Or(own, ExistsEvent(Or(req, resp))), args + args + args, Or(own', ExistsEvent(Or(req', resp'))))
  {
    BindsOr(req, args, req', resp, args, resp');
    BindsExists(Or(req, resp), args + args, Or(req', resp'));
    hide Binds;
    BindsOr(own, args, own', ExistsEvent(Or(req, resp)), args + args, ExistsEvent(Or(req', resp')));
    assert args + args + args == args + (args + args);
  }

  lemma HeaderBinds(t: Term)
    ensures var f := HeaderNamedPredicate(t);
      Binds(f.sql, f.args, Or(HeaderMeaning(CrHeaders, t),
        ExistsEvent(Or(HeaderMeaning(ERequestHeaders, t), HeaderMeaning(EResponseHeaders, t)))))
    ensures var p, n := Text(JsonHeaderPath(t.headerName)), Needle(t);
      Binds(Or(HeaderLike(ERequestHeaders, Hole, Hole), HeaderLike(EResponseHeaders, Hole, Hole)), [p, n, p, n],
        Or(HeaderMeaning(ERequestHeaders, t), HeaderMeaning(EResponseHeaders, t)))
  {
    var args := [Text(JsonHeaderPath(t.headerName)), Needle(t)];
    HeaderShapeBinds(HeaderLike(CrHeaders, Hole, Hole), HeaderLike(ERequestHeaders, Hole, Hole),
      HeaderLike(EResponseHeaders, Hole, Hole), args,
      HeaderMeaning(CrHeaders, t), HeaderMeaning(ERequestHeaders, t), HeaderMeaning(EResponseHeaders, t));
    assert args + args == [args[0], args[1], args[0], args[1]];
    assert args + args + args == HeaderNamedPredicate(t).args;
  }

  lemma HeadersAnyBinds(t: Term)
    ensures var f := HeadersAnyPredicate(t);
      Binds(f.sql, f.args, Or(ScannedMeaning(CrHeaders, t),
        ExistsEvent(Or(ScannedMeaning(ERequestHeaders, t), ScannedMeaning(EResponseHeaders, t)))))
  {
    var args := [Needle(t)];
    HeaderShapeBinds(Scanned(CrHeaders), Scanned(ERequestHeaders), Scanned(EResponseHeaders), args,
      ScannedMeaning(CrHeaders, t), ScannedMeaning(ERequestHeaders, t), ScannedMeaning(EResponseHeaders, t));
    assert args + args + args == HeadersAnyPredicate(t).args;
  }

  /** The clause a term has in an arm (if any) binds to the term's meaning there. */
  predicate ClauseBinds(f: Option<Fragment>, m: Option<Expr<Value>>) {
    if f.None? then m.None? else m.Some? && Binds(f.value.sql, f.value.args, m.value)
  }

  lemma WhereBinds(t: Term)
    ensures ClauseBinds(WhereTerm(t), WhereMeaning(t))
  {
    hide IndexedArg, Needle, UnionChain, FreeformPredicate, FreeformArmsMeaning, HeaderNamedPredicate, HeadersAnyPredicate;
    match t.field
    case Freeform => FreeformBinds(t);
    case Header => HeaderBinds(t);
    case Headers => HeadersAnyBinds(t);
    case _ =>
  }

  lemma HavingBinds(t: Term)
    requires WellFormed(t)
    ensures ClauseBinds(HavingTerm(t), HavingMeaning(t))
  {}

  lemma OrphanBinds(t: Term)
    requires WellFormed(t)
    ensures ClauseBinds(OrphanTerm(t), OrphanMeaning(t))
  {
    hide IndexedArg, Needle, UnionChain, FreeformOrphanPredicate, FreeformOrphanArmsMeaning, JsonHeaderPath;
    match t.field
    case Freeform => FreeformOrphanBinds(t);
    case Header => HeaderBinds(t);
    case _ =>
  }

  lemma TermBinds(arm: Arm, t: Term)
    requires WellFormed(t)
    ensures ClauseBinds(CompileTerm(arm, t), Meaning(arm, t))
  {
    hide WhereTerm, WhereMeaning, HavingTerm, HavingMeaning, OrphanTerm, OrphanMeaning;
    match arm
    case Where => WhereBinds(t);
    case Having => HavingBinds(t);
    case Orphan => OrphanBinds(t);
  }
}
