/** Handlers that check the limiter, authenticate, and register a failure, running
    concurrently with each other and with the sweeper. */
module AuthHandlers {
  import opened AuthLimit

  datatype Event =
    | Enter(handler: nat, ip: string, at: int)        // Allowed; when it answers no, the handler is done
    | Leave(handler: nat, fails: bool, at: int)       // authentication ends; RegisterFailure when it failed
    | Tidy(at: int)                                   // the sweeper

  /** The limiter, and the client of each handler between its check and its end. */
  datatype Config = Config(limiter: State, inFlight: map<nat, string>)

  predicate Possible(cfg: Config, e: Event) {
    match e
    case Enter(h, _, _) => h !in cfg.inFlight
    case Leave(h, _, _) => h in cfg.inFlight
    case Tidy(_) => true
  }

  function Move(cfg: Config, e: Event): Config
    requires Possible(cfg, e)
  {
    match e
    case Enter(h, ip, now) =>
      Config(AfterAllowed(cfg.limiter, ip, now),
             if IsAllowed(cfg.limiter, ip, now) then cfg.inFlight[h := ip] else cfg.inFlight)
    case Leave(h, fails, now) =>
      Config(if fails then AfterFailure(cfg.limiter, cfg.inFlight[h], now) else cfg.limiter, cfg.inFlight - {h})
    case Tidy(now) => cfg.(limiter := AfterSweep(cfg.limiter, now))
  }

  predicate IsRun(cfgs: seq<Config>, events: seq<Event>) {
    && |cfgs| == |events| + 1 && cfgs[0] == Config(INITIAL, map[])
    && (forall k :: 0 <= k < |events| ==> Possible(cfgs[k], events[k]) && cfgs[k + 1] == Move(cfgs[k], events[k]))
    && (forall k :: 0 <= k < |events| ==> 0 <= events[k].at)
    && (forall j, k :: 0 <= j < k < |events| ==> events[j].at <= events[k].at)
  }

  function Covers(scope: Scope, ip: string): bool { scope.Client? ==> ip == scope.ip }

  function InScope(inFlight: map<nat, string>, scope: Scope): set<nat> {
    set h | h in inFlight && Covers(scope, inFlight[h])
  }

  /** At no time are more than `c` handlers of the scope between check and end. */
  predicate AtMost(cfgs: seq<Config>, scope: Scope, c: nat) {
    forall k :: 0 <= k < |cfgs| ==> |InScope(cfgs[k].inFlight, scope)| <= c
  }

  predicate Fails(cfg: Config, e: Event, scope: Scope) {
    e.Leave? && e.fails && e.handler in cfg.inFlight && Covers(scope, cfg.inFlight[e.handler])
  }

  function FailuresIn(cfgs: seq<Config>, events: seq<Event>, i: nat, j: nat, scope: Scope): nat
    requires i <= j <= |events| <= |cfgs|
  {
    if i == j then 0
    else FailuresIn(cfgs, events, i, j - 1, scope) + (if Fails(cfgs[j - 1], events[j - 1], scope) then 1 else 0)
  }

  // How many failures can still happen, in units of a token

  /** With at least a token left, new handlers can still get in; below it only those in
      flight can fail, or those a refill lets in. An empty bucket is not debited further. */
  function Potential(c: nat, token: int, level: int, n: nat): int {
    if level < token then Max(n * token, c * level) else level - token + c * token
  }

  lemma PotentialRefills(c: nat, token: int, level: int, later: int, n: nat)
    requires 1 <= c && n <= c && token > 0 && level <= later
    ensures Potential(c, token, later, n) <= Potential(c, token, level, n) + c * (later - level)
  {
    assert c * later == c * level + c * (later - level);
    assert (c - 1) * (later - level) >= 0;
    assert n * token <= c * token;
    if level < token <= later {
      assert (c - 1) * (later - token) >= 0;
    }
  }

  lemma PotentialPays(c: nat, token: int, level: int, n: nat)
    requires 1 <= n <= c && token > 0
    ensures Potential(c, token, Debit(level, token), n - 1) + token <= Potential(c, token, level, n)
  {
    assert (n - 1) * token + token == n * token;
    Product(n - 1, token);
    if level < token {
      NoMore(c, Debit(level, token));
    } else if level < 2 * token {
      Product(c - n, token);
      Product(c - 1, 2 * token - level);
      LastToken(c, n, token, level - token);
    }
  }

  lemma Product(a: int, b: int)
    requires a >= 0 && b >= 0
    ensures a * b >= 0
  {}

  lemma NoMore(c: nat, level: int)
    requires level <= 0
    ensures c * level <= 0
  {}

  /** The failure that takes the last whole token leaves less than c - 1 to come. */
  lemma LastToken(c: nat, n: nat, token: int, rest: int)
    requires 1 <= n <= c && 0 <= rest < token
    requires (c - n) * token >= 0 && (c - 1) * (token - rest) >= 0
    ensures Max((n - 1) * token, c * rest) + token <= rest + c * token
  {
    assert (c - n) * token == c * token - n * token && (n - 1) * token == n * token - token;
    assert (c - 1) * (token - rest) == c * token - token - (c * rest - rest);
  }

  lemma PotentialBounds(c: nat, token: int, capacity: int, level: int, n: nat)
    requires 1 <= c && n <= c && 0 < token <= capacity && level <= capacity
    ensures 0 <= Potential(c, token, level, n) <= capacity - token + c * token
  {
    assert 0 <= n * token <= c * token;
    if level < token {
      assert c * level <= c * token;
    }
  }

  lemma PotentialLeaves(c: nat, token: int, level: int, n: nat)
    requires 1 <= n && token > 0
    ensures Potential(c, token, level, n - 1) <= Potential(c, token, level, n)
  {
    assert (n - 1) * token <= n * token;
  }

  // Runs

  lemma MoveValid(cfg: Config, e: Event, now: int)
    requires Valid(cfg.limiter, now) && now <= e.at && Possible(cfg, e)
    ensures Valid(Move(cfg, e).limiter, e.at)
  {}

  lemma {:induction false} RunKeepsValid(cfgs: seq<Config>, events: seq<Event>, k: nat)
    requires IsRun(cfgs, events) && k <= |events|
    ensures Valid(cfgs[k].limiter, if k == 0 then 0 else events[k - 1].at)
  {
    hide Valid, Move, Possible;
    if k == 0 {
      StartValid();
    } else {
      RunKeepsValid(cfgs, events, k - 1);
      MoveValid(cfgs[k - 1], events[k - 1], if k == 1 then 0 else events[k - 2].at);
    }
  }

  lemma StartValid()
    ensures Valid(INITIAL, 0)
  {}

  /** What one event does to the tokens of a scope and to its handlers in flight. */
  lemma MoveEffect(cfg: Config, e: Event, scope: Scope, now: int)
    requires Valid(cfg.limiter, now) && now <= e.at && Possible(cfg, e)
    ensures var l, n := Tokens(cfg.limiter, scope, e.at), |InScope(cfg.inFlight, scope)|;
      var l', n' := Tokens(Move(cfg, e).limiter, scope, e.at), |InScope(Move(cfg, e).inFlight, scope)|;
      if Fails(cfg, e, scope) then n >= 1 && n' == n - 1 && l' == Debit(l, TokenOf(scope))
      else l' == l && (n' == n || (n' == n + 1 && l >= TokenOf(scope)) || (n >= 1 && n' == n - 1))
  {
    TokensEffect(cfg, e, scope, now);
    InFlightEffect(cfg, e, scope);
  }

  lemma TokensEffect(cfg: Config, e: Event, scope: Scope, now: int)
    requires Valid(cfg.limiter, now) && now <= e.at && Possible(cfg, e)
    ensures var l := Tokens(cfg.limiter, scope, e.at);
      Tokens(Move(cfg, e).limiter, scope, e.at) == if Fails(cfg, e, scope) then Debit(l, TokenOf(scope)) else l
  {
    match e
    case Enter(_, ip, at) => StepTokens(cfg.limiter, Check(ip, at), scope, now);
    case Leave(h, _, at) => StepTokens(cfg.limiter, Fail(cfg.inFlight[h], at), scope, now);
    case Tidy(at) => StepTokens(cfg.limiter, Sweep(at), scope, now);
  }

  lemma InFlightEffect(cfg: Config, e: Event, scope: Scope)
    requires Possible(cfg, e)
    ensures var n, n' := |InScope(cfg.inFlight, scope)|, |InScope(Move(cfg, e).inFlight, scope)|;
      if Fails(cfg, e, scope) then n >= 1 && n' == n - 1
      else n' == n || (n' == n + 1 && Tokens(cfg.limiter, scope, e.at) >= TokenOf(scope)) || (n >= 1 && n' == n - 1)
  {
    hide InScope, Tokens;
    match e
    case Enter(h, ip, at) =>
      JoinsScope(cfg.inFlight, h, ip, scope);
      AllowedHasToken(cfg.limiter, ip, at, scope);
    case Leave(h, _, _) =>
      LeavesScope(cfg.inFlight, h, scope);
    case Tidy(_) =>
  }

  lemma JoinsScope(inFlight: map<nat, string>, h: nat, ip: string, scope: Scope)
    requires h !in inFlight
    ensures |InScope(inFlight[h := ip], scope)| == |InScope(inFlight, scope)| + (if Covers(scope, ip) then 1 else 0)
  {
    hide Covers;
    assert InScope(inFlight[h := ip], scope) == InScope(inFlight, scope) + (if Covers(scope, ip) then {h} else {});
  }

  lemma LeavesScope(inFlight: map<nat, string>, h: nat, scope: Scope)
    requires h in inFlight
    ensures |InScope(inFlight, scope)| == |InScope(inFlight - {h}, scope)| + (if Covers(scope, inFlight[h]) then 1 else 0)
  {
    hide Covers;
    assert InScope(inFlight, scope) == InScope(inFlight - {h}, scope) + (if Covers(scope, inFlight[h]) then {h} else {});
  }

  lemma AllowedHasToken(st: State, ip: string, at: int, scope: Scope)
    ensures IsAllowed(st, ip, at) && Covers(scope, ip) ==> Tokens(st, scope, at) >= TokenOf(scope)
  {}

  /** One event: the potential pays for the failure, if there is one. */
  lemma EventPays(cfg: Config, e: Event, scope: Scope, now: int, c: nat)
    requires Valid(cfg.limiter, now) && now <= e.at && Possible(cfg, e)
    requires 1 <= c && |InScope(cfg.inFlight, scope)| <= c
    ensures var token := TokenOf(scope);
      Potential(c, token, Tokens(Move(cfg, e).limiter, scope, e.at), |InScope(Move(cfg, e).inFlight, scope)|)
        + (if Fails(cfg, e, scope) then token else 0)
      <= Potential(c, token, Tokens(cfg.limiter, scope, e.at), |InScope(cfg.inFlight, scope)|)
  {
    hide Move, Tokens, InScope, Valid, Potential;
    MoveEffect(cfg, e, scope, now);
    var token, l, n := TokenOf(scope), Tokens(cfg.limiter, scope, e.at), |InScope(cfg.inFlight, scope)|;
    if Fails(cfg, e, scope) {
      PotentialPays(c, token, l, n);
    } else if n >= 1 {
      PotentialLeaves(c, token, l, n);
      EnterFree(c, token, l, n);
    } else {
      EnterFree(c, token, l, n);
    }
  }

  lemma EnterFree(c: nat, token: int, level: int, n: nat)
    ensures level >= token ==> Potential(c, token, level, n + 1) == Potential(c, token, level, n)
  {}

  lemma {:induction false} WindowPays(cfgs: seq<Config>, events: seq<Event>, i: nat, j: nat, scope: Scope, c: nat)
    requires IsRun(cfgs, events) && AtMost(cfgs, scope, c) && 1 <= c && i < j <= |events|
    ensures var token, t := TokenOf(scope), events[j - 1].at;
      FailuresIn(cfgs, events, i, j, scope) * token
        + Potential(c, token, Tokens(cfgs[j].limiter, scope, t), |InScope(cfgs[j].inFlight, scope)|)
      <= CapacityOf(scope) - token + c * token + c * (t - events[i].at)
    decreases j
  {
    hide Move, Possible, Tokens, InScope, Valid, Potential;
    var token, t, cfg := TokenOf(scope), events[j - 1].at, cfgs[j - 1];
    var n := |InScope(cfg.inFlight, scope)|;
    var now := if j == 1 then 0 else events[j - 2].at;
    RunKeepsValid(cfgs, events, j - 1);
    EventPays(cfg, events[j - 1], scope, now, c);
    TokensAtMostFull(cfg.limiter, scope, t);
    PotentialBounds(c, token, CapacityOf(scope), Tokens(cfg.limiter, scope, t), n);
    OneMore(FailuresIn(cfgs, events, i, j - 1, scope), token);
    if j - 1 > i {
      WindowPays(cfgs, events, i, j - 1, scope, c);
      TokensRefill(cfg.limiter, scope, now, t);
      PotentialLater(c, token, Tokens(cfg.limiter, scope, now), Tokens(cfg.limiter, scope, t), n, t - now);
      Spread(c, now - events[i].at, t - now);
    }
  }

  lemma OneMore(f: nat, token: int)
    ensures (f + 1) * token == f * token + token && 0 * token == 0
  {}

  lemma Spread(c: nat, a: int, b: int)
    ensures c * a + c * b == c * (a + b)
  {}

  lemma TokensRefill(st: State, scope: Scope, now: int, later: int)
    requires Valid(st, now) && now <= later
    ensures Tokens(st, scope, now) <= Tokens(st, scope, later) <= Tokens(st, scope, now) + (later - now)
  {}

  lemma PotentialLater(c: nat, token: int, level: int, later: int, n: nat, wait: int)
    requires 1 <= c && n <= c && token > 0 && level <= later <= level + wait
    ensures Potential(c, token, later, n) <= Potential(c, token, level, n) + c * wait
  {
    hide Potential;
    PotentialRefills(c, token, level, later, n);
    assert c * (later - level) <= c * wait;
  }

  /** With at most `c` handlers of a scope in flight, and sweeps anywhere, any window of width
      W holds at most capacity + (c - 1) + c * W / refill time failures. */
  lemma ConcurrentRateBound(cfgs: seq<Config>, events: seq<Event>, i: nat, j: nat, scope: Scope, c: nat)
    requires IsRun(cfgs, events) && AtMost(cfgs, scope, c) && 1 <= c && i < j <= |events|
    ensures FailuresIn(cfgs, events, i, j, scope) * TokenOf(scope) <=
      CapacityOf(scope) + (c - 1) * TokenOf(scope) + c * (events[j - 1].at - events[i].at)
  {
    hide Tokens, InScope, Potential, FailuresIn, Move, Possible;
    WindowPays(cfgs, events, i, j, scope, c);
    var t := events[j - 1].at;
    TokensAtMostFull(cfgs[j].limiter, scope, t);
    PotentialBounds(c, TokenOf(scope), CapacityOf(scope), Tokens(cfgs[j].limiter, scope, t), |InScope(cfgs[j].inFlight, scope)|);
    assert (c - 1) * TokenOf(scope) == c * TokenOf(scope) - TokenOf(scope);
  }

  /** One handler at a time: any window holds at most 5 + W/6s failures of a client and at
      most 20 + W/50ms failures in all. */
  lemma SerialRateBound(cfgs: seq<Config>, events: seq<Event>, i: nat, j: nat, ip: string)
    requires IsRun(cfgs, events) && i < j <= |events|
    ensures var width := events[j - 1].at - events[i].at;
      && width >= 0
      && (AtMost(cfgs, Client(ip), 1) ==> FailuresIn(cfgs, events, i, j, Client(ip)) <= 5 + width / TOKEN)
      && (AtMost(cfgs, Everyone, 1) ==> FailuresIn(cfgs, events, i, j, Everyone) <= 20 + width / GLOBAL_TOKEN)
  {
    hide FailuresIn, AtMost;
    if AtMost(cfgs, Client(ip), 1) { ConcurrentRateBound(cfgs, events, i, j, Client(ip), 1); }
    if AtMost(cfgs, Everyone, 1) { ConcurrentRateBound(cfgs, events, i, j, Everyone, 1); }
  }

  /** One handler of a scope at a time: every failure finds a whole token, sweeps or not. */
  lemma SerialRunGated(cfgs: seq<Config>, events: seq<Event>, scope: Scope, k: nat)
    requires IsRun(cfgs, events) && AtMost(cfgs, scope, 1) && k < |events| && Fails(cfgs[k], events[k], scope)
    ensures Tokens(cfgs[k].limiter, scope, events[k].at) >= TokenOf(scope)
  {
    hide Move, Tokens, Valid, Possible;
    var now := if k == 0 then 0 else events[k - 1].at;
    assert events[k].handler in InScope(cfgs[k].inFlight, scope);
    RunKeepsValid(cfgs, events, k);
    TokenKept(cfgs, events, scope, k);
    TokensRefill(cfgs[k].limiter, scope, now, events[k].at);
  }

  lemma {:induction false} TokenKept(cfgs: seq<Config>, events: seq<Event>, scope: Scope, k: nat)
    requires IsRun(cfgs, events) && AtMost(cfgs, scope, 1) && k <= |events|
    ensures InScope(cfgs[k].inFlight, scope) != {} ==>
      Tokens(cfgs[k].limiter, scope, if k == 0 then 0 else events[k - 1].at) >= TokenOf(scope)
  {
    hide Move, Tokens, Valid, Possible;
    if k == 0 {
      assert InScope(cfgs[0].inFlight, scope) == {};
    } else {
      hide InScope;
      var now := if k == 1 then 0 else events[k - 2].at;
      TokenKept(cfgs, events, scope, k - 1);
      RunKeepsValid(cfgs, events, k - 1);
      MoveEffect(cfgs[k - 1], events[k - 1], scope, now);
      TokensRefill(cfgs[k - 1].limiter, scope, now, events[k - 1].at);
    }
  }
}
