/** The SQL compilers: every term becomes a condition with holes plus the arguments for them. */
module CompileSql {
  import opened Strings
  import opened SearchQuery
  import opened Sql
  import Like

  datatype Fragment = Fragment(sql: Expr<Hole>, args: seq<Value>)

  // Conditions for one term, as emitted

  function Needle(t: Term): Value {
    Text("%" + Like.EscapeLike(ToLower(t.value)) + "%")
  }

  /** likePattern of indexedPredicate: the argument bound for a host, path or service column. */
  function IndexedArg(t: Term): Value {
    match t.wildcard
    case Prefix => Text(Like.EscapeLike(t.value) + "%")
    case Substring => Text("%" + Like.EscapeLike(t.value) + "%")
    case Exactly => Text(t.value)
  }

  function IndexedSql(col: Column, t: Term): Expr<Hole> {
    if t.wildcard == Exactly then Eq(col, Hole) else LikeEsc(col, Hole)
  }

  function Scanned(col: Column): Expr<Hole> { LowerLike(col, Hole) }

  /** The conditions on a joined event, OR'd inside the last UNION arm. */
  function FreeformEventSql(t: Term): seq<Expr<Hole>> {
    [IndexedSql(ERequestPath, t), Scanned(ERequestBody), Scanned(ERequestHeaders),
     Scanned(EResponseBody), Scanned(EResponseHeaders)]
  }

  function FreeformArms(t: Term): seq<Select<Hole>> {
    [RequestsWhere(IndexedSql(CrHost, t)),
     RequestsWhere(IndexedSql(CrPath, t)),
     RequestsWhere(IndexedSql(CrService, t)),
     RequestsWhere(Scanned(CrBody)),
     RequestsWhere(Scanned(CrHeaders)),
     JoinWhere(OrChain(FreeformEventSql(t)))]
  }

  function FreeformPredicate(t: Term): Fragment {
    var a, n := IndexedArg(t), Needle(t);
    Fragment(RequestIdIn(UnionChain(FreeformArms(t))), [a, a, a, n, n, a, n, n, n, n])
  }

  function FreeformOrphanArms(t: Term): seq<Select<Hole>> {
    [EventsWhere(IndexedSql(EService, t)),
     EventsWhere(IndexedSql(ERequestPath, t)),
     EventsWhere(Scanned(ERequestBody)),
     EventsWhere(Scanned(ERequestHeaders)),
     EventsWhere(Scanned(EResponseBody)),
     EventsWhere(Scanned(EResponseHeaders))]
  }

  function FreeformOrphanPredicate(t: Term): Fragment {
    var a, n := IndexedArg(t), Needle(t);
    Fragment(EventIdIn(UnionChain(FreeformOrphanArms(t))), [a, a, n, n, n, n])
  }

  function HeadersAnyPredicate(t: Term): Fragment {
    var n := Needle(t);
    Fragment(Or(Scanned(CrHeaders), ExistsEvent(Or(Scanned(ERequestHeaders), Scanned(EResponseHeaders)))), [n, n, n])
  }

  function HeaderNamedPredicate(t: Term): Fragment {
    var n, p := Needle(t), Text(JsonHeaderPath(t.headerName));
    Fragment(
      Or(HeaderLike(CrHeaders, Hole, Hole),
         ExistsEvent(Or(HeaderLike(ERequestHeaders, Hole, Hole), HeaderLike(EResponseHeaders, Hole, Hole)))),
      [p, n, p, n, p, n])
  }

  function Indexed(col: Column, t: Term): Fragment {
    Fragment(IndexedSql(col, t), [IndexedArg(t)])
  }

  function Exactly1(col: Column, t: Term): Fragment {
    Fragment(Eq(col, Hole), [Text(t.value)])
  }

  /** The three places a term can be compiled into. */
  datatype Arm = Where | Having | Orphan

  /** compileTermSQL before negation; None when the term has no clause there. */
  function WhereTerm(t: Term): Option<Fragment> {
    match t.field
    case Freeform => Some(FreeformPredicate(t))
    case Host => Some(Indexed(CrHost, t))
    case Path => Some(Indexed(CrPath, t))
    case Service => Some(Indexed(CrService, t))
    case Body => Some(Fragment(Scanned(CrBody), [Needle(t)]))
    case Headers => Some(HeadersAnyPredicate(t))
    case Header => Some(HeaderNamedPredicate(t))
    case Method => Some(Exactly1(CrMethod, t))
    case SourceIP => Some(Exactly1(CrSourceIP, t))
    case CorrelationID => Some(Exactly1(CrCorrelationID, t))
    case Status => None
    case HasEvents => None
  }

  function HavingTerm(t: Term): Option<Fragment>
    requires WellFormed(t)
  {
    match t.field
    case Status =>
      (match t.status.value
       case Exact(n) => Some(Fragment(MaxStatusEq(Hole), [Int(n)]))
       case Class(c) => Some(Fragment(MaxStatusBetween(Hole, Hole), [Int(ClassLow(c)), Int(ClassHigh(c))])))
    case HasEvents => Some(Fragment(if t.hasEvents.value then CountPositive else CountZero, []))
    case _ => None
  }

  function OrphanTerm(t: Term): Option<Fragment>
    requires WellFormed(t)
  {
    match t.field
    case Service => Some(Indexed(EService, t))
    case CorrelationID => Some(Exactly1(ECorrelationID, t))
    case Headers => Some(Fragment(Or(Scanned(ERequestHeaders), Scanned(EResponseHeaders)), [Needle(t), Needle(t)]))
    case Header =>
      var n, p := Needle(t), Text(JsonHeaderPath(t.headerName));
      Some(Fragment(Or(HeaderLike(ERequestHeaders, Hole, Hole), HeaderLike(EResponseHeaders, Hole, Hole)), [p, n, p, n]))
    case Status =>
      (match t.status.value
       case Exact(n) => Some(Fragment(And(TypeIsResponse, Eq(EStatus, Hole)), [Int(n)]))
       case Class(c) => Some(Fragment(And(TypeIsResponse, Between(EStatus, Hole, Hole)), [Int(ClassLow(c)), Int(ClassHigh(c))])))
    case Freeform => Some(FreeformOrphanPredicate(t))
    case _ => None
  }

  function Positive(arm: Arm, t: Term): Option<Fragment>
    requires WellFormed(t)
  {
    match arm
    case Where => WhereTerm(t)
    case Having => HavingTerm(t)
    case Orphan => OrphanTerm(t)
  }

  function CompileTerm(arm: Arm, t: Term): Option<Fragment>
    requires WellFormed(t)
  {
    var f := Positive(arm, t);
    if f.Some? && t.negated then Some(Fragment(Not(f.value.sql), f.value.args)) else f
  }

  // Whole queries

  predicate AllWellFormed(q: Query) { forall t :: t in q ==> WellFormed(t) }

  function Clauses(arm: Arm, q: Query): seq<Expr<Hole>>
    requires AllWellFormed(q)
  {
    if q == [] then []
    else
      var f := CompileTerm(arm, q[0]);
      (if f.Some? then [f.value.sql] else []) + Clauses(arm, q[1..])
  }

  function Args(arm: Arm, q: Query): seq<Value>
    requires AllWellFormed(q)
  {
    if q == [] then []
    else
      var f := CompileTerm(arm, q[0]);
      (if f.Some? then f.value.args else []) + Args(arm, q[1..])
  }

  /** The loop shared by CompileSQL, CompileSQLHaving and CompileSQLOrphans. */
  method Compile(arm: Arm, q: Query) returns (clauses: seq<Expr<Hole>>, args: seq<Value>)
    requires AllWellFormed(q)
    ensures clauses == Clauses(arm, q) && args == Args(arm, q)
  {
    hide CompileTerm, WellFormed;
    clauses, args := [], [];
    var i := 0;
    assert q[0..] == q;
    while i < |q|
      invariant 0 <= i <= |q|
      invariant clauses + Clauses(arm, q[i..]) == Clauses(arm, q)
      invariant args + Args(arm, q[i..]) == Args(arm, q)
    {
      var f := CompileTerm(arm, q[i]);
      assert q[i..][1..] == q[i + 1..];
      var clause := if f.Some? then [f.value.sql] else [];
      var vals := if f.Some? then f.value.args else [];
      Regroup(clauses, clause, Clauses(arm, q[i + 1..]));
      Regroup(args, vals, Args(arm, q[i + 1..]));
      clauses := clauses + clause;
      args := args + vals;
      i := i + 1;
    }
    assert q[i..] == [];
  }

  lemma Regroup<T>(a: seq<T>, b: seq<T>, c: seq<T>)
    ensures a + b + c == a + (b + c)
  {}

  // What each hole is meant to receive: the same conditions with their values in place.

  function IndexedMeaning(col: Column, t: Term): Expr<Value> {
    if t.wildcard == Exactly then Eq(col, IndexedArg(t)) else LikeEsc(col, IndexedArg(t))
  }

  function ScannedMeaning(col: Column, t: Term): Expr<Value> { LowerLike(col, Needle(t)) }

  function HeaderMeaning(col: Column, t: Term): Expr<Value> {
    HeaderLike(col, Text(JsonHeaderPath(t.headerName)), Needle(t))
  }

  function FreeformEventMeaning(t: Term): seq<Expr<Value>> {
    [IndexedMeaning(ERequestPath, t), ScannedMeaning(ERequestBody, t), ScannedMeaning(ERequestHeaders, t),
     ScannedMeaning(EResponseBody, t), ScannedMeaning(EResponseHeaders, t)]
  }

  /** The conditions on the request's own columns, one per UNION arm. */
  function FreeformOwnMeaning(t: Term): seq<Expr<Value>> {
    [IndexedMeaning(CrHost, t), IndexedMeaning(CrPath, t), IndexedMeaning(CrService, t),
     ScannedMeaning(CrBody, t), ScannedMeaning(CrHeaders, t)]
  }

  function FreeformArmsMeaning(t: Term): seq<Select<Value>> {
    var own := FreeformOwnMeaning(t);
    [RequestsWhere(own[0]), RequestsWhere(own[1]), RequestsWhere(own[2]), RequestsWhere(own[3]),
     RequestsWhere(own[4]), JoinWhere(OrChain(FreeformEventMeaning(t)))]
  }

  /** The conditions on an orphan event's columns, one per UNION arm. */
  function FreeformOrphanMeaning(t: Term): seq<Expr<Value>> {
    [IndexedMeaning(EService, t), IndexedMeaning(ERequestPath, t), ScannedMeaning(ERequestBody, t),
     ScannedMeaning(ERequestHeaders, t), ScannedMeaning(EResponseBody, t), ScannedMeaning(EResponseHeaders, t)]
  }

  function FreeformOrphanArmsMeaning(t: Term): seq<Select<Value>> {
    var own := FreeformOrphanMeaning(t);
    [EventsWhere(own[0]), EventsWhere(own[1]), EventsWhere(own[2]), EventsWhere(own[3]),
     EventsWhere(own[4]), EventsWhere(own[5])]
  }

  function StatusMeaning(sf: StatusFilter, exact: Value -> Expr<Value>, range: (Value, Value) -> Expr<Value>): Expr<Value>
    requires sf.Class? ==> sf.text != ""
  {
    match sf
    case Exact(n) => exact(Int(n))
    case Class(c) => range(Int(ClassLow(c)), Int(ClassHigh(c)))
  }

  function WhereMeaning(t: Term): Option<Expr<Value>> {
    match t.field
    case Freeform => Some(RequestIdIn(UnionChain(FreeformArmsMeaning(t))))
    case Host => Some(IndexedMeaning(CrHost, t))
    case Path => Some(IndexedMeaning(CrPath, t))
    case Service => Some(IndexedMeaning(CrService, t))
    case Body => Some(ScannedMeaning(CrBody, t))
    case Headers =>
      Some(Or(ScannedMeaning(CrHeaders, t),
              ExistsEvent(Or(ScannedMeaning(ERequestHeaders, t), ScannedMeaning(EResponseHeaders, t)))))
    case Header =>
      Some(Or(HeaderMeaning(CrHeaders, t),
              ExistsEvent(Or(HeaderMeaning(ERequestHeaders, t), HeaderMeaning(EResponseHeaders, t)))))
    case Method => Some(Eq(CrMethod, Text(t.value)))
    case SourceIP => Some(Eq(CrSourceIP, Text(t.value)))
    case CorrelationID => Some(Eq(CrCorrelationID, Text(t.value)))
    case Status => None
    case HasEvents => None
  }

  function HavingMeaning(t: Term): Option<Expr<Value>>
    requires WellFormed(t)
  {
    match t.field
    case Status => Some(StatusMeaning(t.status.value, v => MaxStatusEq(v), (lo, hi) => MaxStatusBetween(lo, hi)))
    case HasEvents => Some(if t.hasEvents.value then CountPositive else CountZero)
    case _ => None
  }

  function OrphanMeaning(t: Term): Option<Expr<Value>>
    requires WellFormed(t)
  {
    match t.field
    case Service => Some(IndexedMeaning(EService, t))
    case CorrelationID => Some(Eq(ECorrelationID, Text(t.value)))
    case Headers => Some(Or(ScannedMeaning(ERequestHeaders, t), ScannedMeaning(EResponseHeaders, t)))
    case Header => Some(Or(HeaderMeaning(ERequestHeaders, t), HeaderMeaning(EResponseHeaders, t)))
    case Status =>
      Some(And(TypeIsResponse, StatusMeaning(t.status.value, v => Eq(EStatus, v), (lo, hi) => Between(EStatus, lo, hi))))
    case Freeform => Some(EventIdIn(UnionChain(FreeformOrphanArmsMeaning(t))))
    case _ => None
  }

  function PositiveMeaning(arm: Arm, t: Term): Option<Expr<Value>>
    requires WellFormed(t)
  {
    match arm
    case Where => WhereMeaning(t)
    case Having => HavingMeaning(t)
    case Orphan => OrphanMeaning(t)
  }

  function Meaning(arm: Arm, t: Term): Option<Expr<Value>>
    requires WellFormed(t)
  {
    var m := PositiveMeaning(arm, t);
    if m.Some? && t.negated then Some(Not(m.value)) else m
  }

  function Meanings(arm: Arm, q: Query): seq<Expr<Value>>
    requires AllWellFormed(q)
  {
    if q == [] then []
    else
      var m := Meaning(arm, q[0]);
      (if m.Some? then [m.value] else []) + Meanings(arm, q[1..])
  }
}
