/** Runs that reach the concurrent rate bound, so that it cannot be improved. */
module AuthWorstCase {
  import opened AuthLimit
  import opened AuthHandlers

  datatype World = World(cfgs: seq<Config>, events: seq<Event>)

  /** n handlers of one client in flight. */
  function Handlers(n: nat, ip: string): map<nat, string> {
    if n == 0 then map[] else Handlers(n - 1, ip)[n - 1 := ip]
  }

  lemma {:induction false} HandlersAre(n: nat, ip: string)
    ensures forall h: nat :: h in Handlers(n, ip) <==> h < n
    ensures forall h :: h in Handlers(n, ip) ==> Handlers(n, ip)[h] == ip
  {
    if n > 0 { HandlersAre(n - 1, ip); }
  }

  /** The run so far, seen at time t: handlers in flight, tokens of the client, tokens of
      everyone, failures of the client. */
  ghost predicate Seen(w: World, ip: string, c: nat, t: int, n: nat, l: int, g: int, f: nat) {
    && |w.cfgs| == |w.events| + 1 && IsRun(w.cfgs, w.events) && AtMost(w.cfgs, Client(ip), c)
    && 0 <= t && (if w.events == [] then t == 0 else w.events[0].at == 0 && w.events[|w.events| - 1].at <= t)
    && var last := w.cfgs[|w.events|];
      && last.inFlight == Handlers(n, ip)
      && Tokens(last.limiter, Client(ip), t) == l && Tokens(last.limiter, Everyone, t) == g
      && FailuresIn(w.cfgs, w.events, 0, |w.events|, Client(ip)) == f
  }

  predicate EndsAt(w: World, t: int) { w.events != [] && w.events[|w.events| - 1].at == t }

  lemma {:induction false} HandlersCard(n: nat, ip: string)
    ensures |InScope(Handlers(n, ip), Client(ip))| == n
  {
    if n > 0 {
      HandlersCard(n - 1, ip);
      HandlersAre(n - 1, ip);
      OneMoreInScope(Handlers(n - 1, ip), n - 1, ip);
    }
  }

  lemma OneMoreInScope(m: map<nat, string>, h: nat, ip: string)
    requires h !in m
    ensures |InScope(m[h := ip], Client(ip))| == |InScope(m, Client(ip))| + 1
  {
    assert InScope(m[h := ip], Client(ip)) == InScope(m, Client(ip)) + {h};
  }

  lemma {:induction false} FailuresPrefix(cfgs: seq<Config>, events: seq<Event>, cfg: Config, e: Event, j: nat, scope: Scope)
    requires j <= |events| && |cfgs| == |events| + 1
    ensures FailuresIn(cfgs + [cfg], events + [e], 0, j, scope) == FailuresIn(cfgs, events, 0, j, scope)
  {
    if j > 0 { FailuresPrefix(cfgs, events, cfg, e, j - 1, scope); }
  }

  /** One more event, by the run's own rules. */
  lemma Extend(w: World, ip: string, c: nat, e: Event) returns (w': World)
    requires IsRun(w.cfgs, w.events) && AtMost(w.cfgs, Client(ip), c) && Possible(w.cfgs[|w.events|], e)
    requires 0 <= e.at && (w.events != [] ==> w.events[|w.events| - 1].at <= e.at)
    requires |InScope(Move(w.cfgs[|w.events|], e).inFlight, Client(ip))| <= c
    ensures |w'.cfgs| == |w'.events| + 1 && IsRun(w'.cfgs, w'.events) && AtMost(w'.cfgs, Client(ip), c)
    ensures w'.events != [] && w'.events[|w'.events| - 1] == e
    ensures w'.cfgs[|w'.events|] == Move(w.cfgs[|w.events|], e)
    ensures FailuresIn(w'.cfgs, w'.events, 0, |w'.events|, Client(ip)) ==
      FailuresIn(w.cfgs, w.events, 0, |w.events|, Client(ip)) + (if Fails(w.cfgs[|w.events|], e, Client(ip)) then 1 else 0)
    ensures w'.events == w.events + [e]
  {
    hide Move, Possible, InScope;
    var cfg := w.cfgs[|w.events|];
    w' := World(w.cfgs + [Move(cfg, e)], w.events + [e]);
    FailuresPrefix(w.cfgs, w.events, Move(cfg, e), e, |w.events|, Client(ip));
  }

  lemma LastValid(w: World, ip: string, c: nat, t: int, n: nat, l: int, g: int, f: nat)
    requires Seen(w, ip, c, t, n, l, g, f)
    ensures Valid(w.cfgs[|w.events|].limiter, t) && l <= CAPACITY && -GLOBAL_TOKEN < g <= GLOBAL_CAPACITY
  {
    hide IsRun;
    RunKeepsValid(w.cfgs, w.events, |w.events|);
  }

  lemma EnterOne(w: World, ip: string, c: nat, t: int, n: nat, l: int, g: int, f: nat) returns (w': World)
    requires Seen(w, ip, c, t, n, l, g, f) && n < c && l >= TOKEN && g >= GLOBAL_TOKEN
    ensures Seen(w', ip, c, t, n + 1, l, g, f) && EndsAt(w', t)
  {
    hide IsRun, FailuresIn, Valid, InScope;
    var cfg, e := w.cfgs[|w.events|], Enter(n, ip, t);
    LastValid(w, ip, c, t, n, l, g, f);
    HandlersCard(n + 1, ip);
    HandlersAre(n, ip);
    HandlersAre(n + 1, ip);
    assert Handlers(n, ip)[n := ip] == Handlers(n + 1, ip);
    TokensEffect(cfg, e, Client(ip), t);
    TokensEffect(cfg, e, Everyone, t);
    w' := Extend(w, ip, c, e);
  }

  lemma LeaveOne(w: World, ip: string, c: nat, t: int, n: nat, l: int, g: int, f: nat) returns (w': World)
    requires Seen(w, ip, c, t, n, l, g, f) && 1 <= n <= c
    ensures Seen(w', ip, c, t, n - 1, Debit(l, TOKEN), Debit(g, GLOBAL_TOKEN), f + 1) && EndsAt(w', t)
  {
    hide IsRun, FailuresIn, Valid, InScope;
    var cfg, e := w.cfgs[|w.events|], Leave(n - 1, true, t);
    LastValid(w, ip, c, t, n, l, g, f);
    HandlersCard(n - 1, ip);
    HandlersAre(n, ip);
    HandlersAre(n - 1, ip);
    assert Handlers(n, ip) - {n - 1} == Handlers(n - 1, ip);
    TokensEffect(cfg, e, Client(ip), t);
    TokensEffect(cfg, e, Everyone, t);
    w' := Extend(w, ip, c, e);
  }

  lemma {:induction false} EnterMany(w: World, ip: string, c: nat, t: int, n: nat, l: int, g: int, f: nat) returns (w': World)
    requires Seen(w, ip, c, t, n, l, g, f) && n <= c && l >= TOKEN && g >= GLOBAL_TOKEN
    ensures Seen(w', ip, c, t, c, l, g, f)
    decreases c - n
  {
    hide Seen;
    w' := w;
    if n < c {
      w' := EnterOne(w, ip, c, t, n, l, g, f);
      w' := EnterMany(w', ip, c, t, n + 1, l, g, f);
    }
  }

  /** From an empty bucket every handler in flight can fail without being charged. */
  lemma {:induction false} LeaveAll(w: World, ip: string, c: nat, t: int, n: nat, g: int, f: nat) returns (w': World, g': int)
    requires Seen(w, ip, c, t, n, 0, g, f) && n <= c
    ensures Seen(w', ip, c, t, 0, 0, g', f + n) && (EndsAt(w, t) ==> EndsAt(w', t))
    decreases n
  {
    hide Seen;
    w', g' := w, g;
    if n > 0 {
      w' := LeaveOne(w, ip, c, t, n, 0, g, f);
      w', g' := LeaveAll(w', ip, c, t, n - 1, Debit(g, GLOBAL_TOKEN), f + 1);
    }
  }

  /** With one token left, c handlers get in and all of them fail. */
  lemma Burst(w: World, ip: string, c: nat, t: int, g: int, f: nat) returns (w': World, g': int)
    requires Seen(w, ip, c, t, 0, TOKEN, g, f) && 1 <= c && g >= GLOBAL_TOKEN
    ensures Seen(w', ip, c, t, 0, 0, g', f + c) && EndsAt(w', t)
  {
    hide Seen;
    w' := EnterMany(w, ip, c, t, 0, TOKEN, g, f);
    w' := LeaveOne(w', ip, c, t, c, TOKEN, g, f);
    w', g' := LeaveAll(w', ip, c, t, c - 1, Debit(g, GLOBAL_TOKEN), f + 1);
  }

  /** A failure on its own costs a token of each bucket. */
  lemma Single(w: World, ip: string, c: nat, t: int, l: int, g: int, f: nat) returns (w': World)
    requires Seen(w, ip, c, t, 0, l, g, f) && 1 <= c && l >= TOKEN && g >= GLOBAL_TOKEN
    ensures Seen(w', ip, c, t, 0, l - TOKEN, g - GLOBAL_TOKEN, f + 1)
  {
    hide Seen;
    w' := EnterOne(w, ip, c, t, 0, l, g, f);
    w' := LeaveOne(w', ip, c, t, 1, l, g, f);
  }

  /** The time one token takes to come back fills the global bucket. */
  lemma WaitForToken(w: World, ip: string, c: nat, t: int, g: int, f: nat)
    requires Seen(w, ip, c, t, 0, 0, g, f) && EndsAt(w, t)
    ensures Seen(w, ip, c, t + TOKEN, 0, TOKEN, GLOBAL_CAPACITY, f)
  {
    hide IsRun, FailuresIn, AtMost;
    LastValid(w, ip, c, t, 0, 0, g, f);
    var st := w.cfgs[|w.events|].limiter;
    TokensLater(st, Client(ip), t, t + TOKEN);
    TokensLater(st, Everyone, t, t + TOKEN);
  }

  lemma Start(ip: string, c: nat) returns (w: World)
    ensures Seen(w, ip, c, 0, 0, 5 * TOKEN, 20 * GLOBAL_TOKEN, 0)
  {
    w := World([Config(INITIAL, map[])], []);
    HandlersCard(0, ip);
  }

  /** Four failures one by one, then c at once. */
  lemma Opening(ip: string, c: nat) returns (w: World, g: int)
    requires 1 <= c
    ensures Seen(w, ip, c, 0, 0, 0, g, 4 + c) && EndsAt(w, 0)
  {
    hide Seen, EndsAt;
    w := Start(ip, c);
    w := Single(w, ip, c, 0, 5 * TOKEN, 20 * GLOBAL_TOKEN, 0);
    w := Single(w, ip, c, 0, 4 * TOKEN, 19 * GLOBAL_TOKEN, 1);
    w := Single(w, ip, c, 0, 3 * TOKEN, 18 * GLOBAL_TOKEN, 2);
    w := Single(w, ip, c, 0, 2 * TOKEN, 17 * GLOBAL_TOKEN, 3);
    w, g := Burst(w, ip, c, 0, 16 * GLOBAL_TOKEN, 4);
  }

  lemma {:induction false} Bursts(ip: string, c: nat, k: nat) returns (w: World, g: int)
    requires 1 <= c
    ensures Seen(w, ip, c, k * TOKEN, 0, 0, g, 4 + c + c * k) && EndsAt(w, k * TOKEN)
  {
    hide Seen, EndsAt;
    if k == 0 {
      w, g := Opening(ip, c);
    } else {
      w, g := Bursts(ip, c, k - 1);
      var t := (k - 1) * TOKEN;
      WaitForToken(w, ip, c, t, g, 4 + c + c * (k - 1));
      w, g := Burst(w, ip, c, t + TOKEN, GLOBAL_CAPACITY, 4 + c + c * (k - 1));
    }
  }

  /** The bound of ConcurrentRateBound is reached for every number of handlers and every
      window of whole refill times: a failure that finds the bucket empty is not charged. */
  lemma ConcurrentRateReached(ip: string, c: nat, k: nat) returns (w: World)
    requires 1 <= c
    ensures IsRun(w.cfgs, w.events) && AtMost(w.cfgs, Client(ip), c) && w.events != []
    ensures w.events[|w.events| - 1].at - w.events[0].at == k * TOKEN
    ensures FailuresIn(w.cfgs, w.events, 0, |w.events|, Client(ip)) == 5 + (c - 1) + c * k
  {
    hide AtMost, FailuresIn, Move, Possible;
    var g;
    w, g := Bursts(ip, c, k);
  }
}
