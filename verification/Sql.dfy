/** The fragment of SQL that httpcatch emits: conditions with `?` holes, their binding
    to positional arguments, and their three-valued evaluation over the two tables. */
module Sql {
  import opened Strings
  import opened Capture
  import Like

  // Values and rows

  /** A headers column holds JSON text; `headers` is the object that text encodes. */
  datatype Value = Null | Int(i: int) | Text(s: string) | Json(text: string, headers: HeaderMap)

  datatype RequestRow = RequestRow(
    id: string, timestamp: int, service: string, host: string, correlationID: string,
    verb: string, path: string, sourceIP: string, headers: Value, body: string)

  datatype EventRow = EventRow(
    id: string, timestamp: int, isResponse: bool, correlationID: string, service: string,
    status: Value, requestPath: Value, requestHeaders: Value, requestBody: Value,
    responseHeaders: Value, responseBody: Value)

  datatype Db = Db(requests: seq<RequestRow>, events: seq<EventRow>)

  /** The id columns are primary keys. */
  predicate UniqueIds(db: Db) {
    && (forall i, j :: 0 <= i < j < |db.requests| ==> db.requests[i].id != db.requests[j].id)
    && (forall i, j :: 0 <= i < j < |db.events| ==> db.events[i].id != db.events[j].id)
  }

  predicate Correlated(r: RequestRow, ev: EventRow) {
    ev.correlationID == r.correlationID
  }

  // Conditions. V is Hole in emitted text and Value once arguments are bound.

  datatype Hole = Hole

  datatype Column =
    | CrTimestamp | CrId | CrHost | CrPath | CrService | CrBody | CrHeaders
    | CrMethod | CrSourceIP | CrCorrelationID
    | ETimestamp | EId | EService | ECorrelationID | EStatus
    | ERequestPath | ERequestBody | ERequestHeaders | EResponseBody | EResponseHeaders

  datatype Expr<V> =
    | Eq(col: Column, v: V)                           // col = ?
    | Lt(col: Column, v: V)                           // col < ?
    | Ge(col: Column, v: V)                           // col >= ?
    | Between(col: Column, lo: V, hi: V)              // col BETWEEN ? AND ?
    | LikeEsc(col: Column, v: V)                      // col LIKE ? ESCAPE '\'
    | LowerLike(col: Column, v: V)                    // LOWER(CAST(col AS TEXT)) LIKE ? ESCAPE '\'
    | HeaderLike(col: Column, jsonPath: V, v: V)      // EXISTS (... json_each(json_extract(col, ?)) ... LOWER(value) LIKE ?)
    | TypeIsResponse                                  // e.type = 'response'
    | Not(e: Expr<V>)
    | And(l: Expr<V>, r: Expr<V>)
    | Or(l: Expr<V>, r: Expr<V>)
    | ExistsEvent(e: Expr<V>)                         // EXISTS (SELECT 1 FROM events WHERE correlated AND (e))
    | RequestIdIn(sel: Select<V>)                     // cr.id IN (sel)
    | EventIdIn(sel: Select<V>)                       // e.id IN (sel)
    | MaxStatusEq(v: V)                               // MAX(response status) = ?
    | MaxStatusBetween(lo: V, hi: V)                  // MAX(response status) BETWEEN ? AND ?
    | CountPositive                                   // COUNT(e.id) > 0
    | CountZero                                       // COUNT(e.id) = 0

  datatype Select<V> =
    | RequestsWhere(e: Expr<V>)                       // SELECT id FROM captured_requests WHERE e
    | EventsWhere(e: Expr<V>)                         // SELECT id FROM events WHERE e
    | JoinWhere(e: Expr<V>)                           // SELECT cr.id FROM captured_requests JOIN events ... WHERE e
    | Union(l: Select<V>, r: Select<V>)

  /** `a OR b OR c`. */
  function OrChain<V>(es: seq<Expr<V>>): Expr<V>
    requires es != []
  {
    if |es| == 1 then es[0] else Or(OrChain(es[..|es| - 1]), es[|es| - 1])
  }

  /** `a UNION b UNION c`. */
  function UnionChain<V>(ss: seq<Select<V>>): Select<V>
    requires ss != []
  {
    if |ss| == 1 then ss[0] else Union(UnionChain(ss[..|ss| - 1]), ss[|ss| - 1])
  }

  // Binding: holes take arguments from left to right.

  function Holes(e: Expr<Hole>): nat {
    match e
    case Between(_, _, _) => 2
    case HeaderLike(_, _, _) => 2
    case MaxStatusBetween(_, _) => 2
    case Not(x) => Holes(x)
    case And(l, r) => Holes(l) + Holes(r)
    case Or(l, r) => Holes(l) + Holes(r)
    case ExistsEvent(x) => Holes(x)
    case RequestIdIn(s) => SelectHoles(s)
    case EventIdIn(s) => SelectHoles(s)
    case TypeIsResponse => 0
    case CountPositive => 0
    case CountZero => 0
    case _ => 1
  }

  function SelectHoles(s: Select<Hole>): nat {
    match s
    case RequestsWhere(e) => Holes(e)
    case EventsWhere(e) => Holes(e)
    case JoinWhere(e) => Holes(e)
    case Union(l, r) => SelectHoles(l) + SelectHoles(r)
  }

  function Bind(e: Expr<Hole>, args: seq<Value>): Expr<Value>
    requires |args| == Holes(e)
    decreases e
  {
    match e
    case Eq(c, _) => Eq(c, args[0])
    case Lt(c, _) => Lt(c, args[0])
    case Ge(c, _) => Ge(c, args[0])
    case Between(c, _, _) => Between(c, args[0], args[1])
    case LikeEsc(c, _) => LikeEsc(c, args[0])
    case LowerLike(c, _) => LowerLike(c, args[0])
    case HeaderLike(c, _, _) => HeaderLike(c, args[0], args[1])
    case TypeIsResponse => TypeIsResponse
    case Not(x) => Not(Bind(x, args))
    case And(l, r) => And(Bind(l, args[..Holes(l)]), Bind(r, args[Holes(l)..]))
    case Or(l, r) => Or(Bind(l, args[..Holes(l)]), Bind(r, args[Holes(l)..]))
    case ExistsEvent(x) => ExistsEvent(Bind(x, args))
    case RequestIdIn(s) => RequestIdIn(BindSelect(s, args))
    case EventIdIn(s) => EventIdIn(BindSelect(s, args))
    case MaxStatusEq(_) => MaxStatusEq(args[0])
    case MaxStatusBetween(_, _) => MaxStatusBetween(args[0], args[1])
    case CountPositive => CountPositive
    case CountZero => CountZero
  }

  function BindSelect(s: Select<Hole>, args: seq<Value>): Select<Value>
    requires |args| == SelectHoles(s)
    decreases s
  {
    match s
    case RequestsWhere(e) => RequestsWhere(Bind(e, args))
    case EventsWhere(e) => EventsWhere(Bind(e, args))
    case JoinWhere(e) => JoinWhere(Bind(e, args))
    case Union(l, r) => Union(BindSelect(l, args[..SelectHoles(l)]), BindSelect(r, args[SelectHoles(l)..]))
  }

  // Three-valued evaluation

  datatype Truth = True | False | Unknown

  function OfBool(b: bool): Truth { if b then True else False }

  function Not3(t: Truth): Truth {
    match t
    case True => False
    case False => True
    case Unknown => Unknown
  }

  function And3(a: Truth, b: Truth): Truth {
    if a == False || b == False then False
    else if a == True && b == True then True
    else Unknown
  }

  function Or3(a: Truth, b: Truth): Truth {
    if a == True || b == True then True
    else if a == False && b == False then False
    else Unknown
  }

  /** The row (or joined pair of rows) a condition is evaluated on. */
  datatype Env = Env(db: Db, cr: Option<RequestRow>, ev: Option<EventRow>)

  function ColumnValue(c: Column, env: Env): Value {
    match (c, env.cr, env.ev)
    case (CrTimestamp, Some(r), _) => Int(r.timestamp)
    case (CrId, Some(r), _) => Text(r.id)
    case (CrHost, Some(r), _) => Text(r.host)
    case (CrPath, Some(r), _) => Text(r.path)
    case (CrService, Some(r), _) => Text(r.service)
    case (CrBody, Some(r), _) => Text(r.body)
    case (CrHeaders, Some(r), _) => r.headers
    case (CrMethod, Some(r), _) => Text(r.verb)
    case (CrSourceIP, Some(r), _) => Text(r.sourceIP)
    case (CrCorrelationID, Some(r), _) => Text(r.correlationID)
    case (ETimestamp, _, Some(x)) => Int(x.timestamp)
    case (EId, _, Some(x)) => Text(x.id)
    case (EService, _, Some(x)) => Text(x.service)
    case (ECorrelationID, _, Some(x)) => Text(x.correlationID)
    case (EStatus, _, Some(x)) => x.status
    case (ERequestPath, _, Some(x)) => x.requestPath
    case (ERequestBody, _, Some(x)) => x.requestBody
    case (ERequestHeaders, _, Some(x)) => x.requestHeaders
    case (EResponseBody, _, Some(x)) => x.responseBody
    case (EResponseHeaders, _, Some(x)) => x.responseHeaders
    case _ => Null
  }

  function Equal3(a: Value, b: Value): Truth {
    if a == Null || b == Null then Unknown else OfBool(a == b)
  }

  function Less3(a: Value, b: Value): Truth {
    if a == Null || b == Null then Unknown
    else OfBool((a.Int? && b.Int? && a.i < b.i) || (a.Text? && b.Text? && Less(a.s, b.s)))
  }

  function TextOf(v: Value): Option<string> {
    match v
    case Text(s) => Some(s)
    case Json(text, _) => Some(text)
    case _ => None
  }

  function Like3(s: Option<string>, pat: Value): Truth {
    if s.None? || !pat.Text? then Unknown else OfBool(Like.Matches(s.value, pat.s))
  }

  function LowerText(v: Value): Option<string> {
    var s := TextOf(v);
    if s.None? then None else Some(ToLower(s.value))
  }

  /** json_extract(col, path): a JSON path names the header whose key it quotes. */
  predicate HeaderPathMatches(v: Value, jsonPath: Value, pat: Value) {
    v.Json? && pat.Text? &&
    exists name :: name in v.headers && Text(JsonHeaderPath(name)) == jsonPath &&
      exists x :: x in v.headers[name] && Like.Matches(ToLower(x), pat.s)
  }

  function EscapePath(name: string): string {
    if name == "" then ""
    else (if name[0] == '\\' || name[0] == '"' then ['\\', name[0]] else [name[0]]) + EscapePath(name[1..])
  }

  function JsonHeaderPath(name: string): string {
    "$.\"" + EscapePath(name) + "\""
  }

  /** MAX over the group's response events, skipping NULLs; Null when nothing is left. */
  function MaxStatus(events: seq<EventRow>, correlationID: string): Value {
    if events == [] then Null
    else
      var rest := MaxStatus(events[1..], correlationID);
      var e := events[0];
      if e.correlationID == correlationID && e.isResponse && e.status.Int? then
        if rest.Int? && rest.i > e.status.i then rest else e.status
      else rest
  }

  function GroupStatus(env: Env): Value {
    if env.cr.None? then Null else MaxStatus(env.db.events, env.cr.value.correlationID)
  }

  predicate HasEvent(env: Env) {
    env.cr.Some? && exists ev :: ev in env.db.events && Correlated(env.cr.value, ev)
  }

  ghost function Eval(e: Expr<Value>, env: Env): Truth
    decreases e
  {
    match e
    case Eq(c, v) => Equal3(ColumnValue(c, env), v)
    case Lt(c, v) => Less3(ColumnValue(c, env), v)
    case Ge(c, v) => Not3(Less3(ColumnValue(c, env), v))
    case Between(c, lo, hi) =>
      And3(Not3(Less3(ColumnValue(c, env), lo)), Not3(Less3(hi, ColumnValue(c, env))))
    case LikeEsc(c, v) => Like3(TextOf(ColumnValue(c, env)), v)
    case LowerLike(c, v) => Like3(LowerText(ColumnValue(c, env)), v)
    case HeaderLike(c, p, v) => OfBool(HeaderPathMatches(ColumnValue(c, env), p, v))
    case TypeIsResponse => if env.ev.None? then Unknown else OfBool(env.ev.value.isResponse)
    case Not(x) => Not3(Eval(x, env))
    case And(l, r) => And3(Eval(l, env), Eval(r, env))
    case Or(l, r) => Or3(Eval(l, env), Eval(r, env))
    case ExistsEvent(x) =>
      OfBool(env.cr.Some? && exists ev ::
        ev in env.db.events && Correlated(env.cr.value, ev) && Eval(x, env.(ev := Some(ev))) == True)
    case RequestIdIn(s) => if env.cr.None? then Unknown else OfBool(Selected(s, env.db, env.cr.value.id))
    case EventIdIn(s) => if env.ev.None? then Unknown else OfBool(Selected(s, env.db, env.ev.value.id))
    case MaxStatusEq(v) => Equal3(GroupStatus(env), v)
    case MaxStatusBetween(lo, hi) =>
      And3(Not3(Less3(GroupStatus(env), lo)), Not3(Less3(hi, GroupStatus(env))))
    case CountPositive => OfBool(HasEvent(env))
    case CountZero => OfBool(!HasEvent(env))
  }

  /** The ids a subquery yields; a row is selected only when its condition is True. */
  ghost predicate Selected(s: Select<Value>, db: Db, id: string)
    decreases s
  {
    match s
    case RequestsWhere(e) =>
      exists r :: r in db.requests && r.id == id && Eval(e, Env(db, Some(r), None)) == True
    case EventsWhere(e) =>
      exists x :: x in db.events && x.id == id && Eval(e, Env(db, None, Some(x))) == True
    case JoinWhere(e) =>
      exists r, x :: r in db.requests && x in db.events && Correlated(r, x) && r.id == id &&
        Eval(e, Env(db, Some(r), Some(x))) == True
    case Union(l, r) => Selected(l, db, id) || Selected(r, db, id)
  }

  ghost predicate AllTrue(es: seq<Expr<Value>>, env: Env) {
    forall e :: e in es ==> Eval(e, env) == True
  }

  // Header paths name exactly one header.

  lemma {:induction false} EscapePathInjective(a: string, b: string)
    requires EscapePath(a) == EscapePath(b)
    ensures a == b
  {
    if a != "" && b != "" {
      var x, y := EscapePath(a), EscapePath(b);
      assert a[0] == b[0] by {
        assert x[0] == y[0];
        assert x[0] == '\\' ==> x[1] == a[0] && y[1] == b[0];
      }
      var n := if a[0] == '\\' || a[0] == '"' then 2 else 1;
      assert x[n..] == EscapePath(a[1..]) && y[n..] == EscapePath(b[1..]);
      EscapePathInjective(a[1..], b[1..]);
      assert a == [a[0]] + a[1..] && b == [b[0]] + b[1..];
    }
  }

  lemma JsonHeaderPathInjective(a: string, b: string)
    requires JsonHeaderPath(a) == JsonHeaderPath(b)
    ensures a == b
  {
    var x, y := JsonHeaderPath(a), JsonHeaderPath(b);
    assert x[3..|x| - 1] == EscapePath(a) && y[3..|y| - 1] == EscapePath(b);
    EscapePathInjective(a, b);
  }
}
