/** Token buckets that limit failed admin logins, per client IP and over all clients.

    Token counts are integers in units that refill at one unit per nanosecond: a per-IP
    token (5 per 30 s) is 6e9 units and a global token (20 per second) is 5e7 units, so
    every refill is exact. Times are nanoseconds; the zero time is 0. */
module AuthLimit {

  const SECOND := 1_000_000_000
  const TOKEN := 6_000_000_000
  const CAPACITY := 5 * TOKEN
  const GLOBAL_TOKEN := 50_000_000
  const GLOBAL_CAPACITY := 20 * GLOBAL_TOKEN
  const IDLE_EVICT := 600 * SECOND

  datatype Bucket = Bucket(tokens: int, lastSeen: int)

  /** refillTokens: elapsed-time refill clamped to capacity. */
  function Refill(b: Bucket, capacity: int, now: int): int {
    var elapsed := if now < b.lastSeen then 0 else now - b.lastSeen;
    var t := b.tokens + elapsed;
    if t > capacity then capacity else t
  }

  function Debit(level: int, token: int): int {
    if level > 0 then level - token else level
  }

  // The limiter as a value

  datatype State = State(perIP: map<string, Bucket>, global: Bucket)

  const INITIAL := State(map[], Bucket(GLOBAL_CAPACITY, 0))

  function GlobalLevel(st: State, now: int): int { Refill(st.global, GLOBAL_CAPACITY, now) }

  /** The tokens an IP has now; an unseen IP has a full bucket. */
  function Level(st: State, ip: string, now: int): int {
    if ip in st.perIP then Refill(st.perIP[ip], CAPACITY, now) else CAPACITY
  }

  predicate IsAllowed(st: State, ip: string, now: int) {
    GlobalLevel(st, now) >= GLOBAL_TOKEN && Level(st, ip, now) >= TOKEN
  }

  function AfterAllowed(st: State, ip: string, now: int): State {
    if GlobalLevel(st, now) >= GLOBAL_TOKEN && ip !in st.perIP
    then st.(perIP := st.perIP[ip := Bucket(CAPACITY, now)])
    else st
  }

  function AfterFailure(st: State, ip: string, now: int): State {
    State(st.perIP[ip := Bucket(Debit(Level(st, ip, now), TOKEN), now)],
          Bucket(Debit(GlobalLevel(st, now), GLOBAL_TOKEN), now))
  }

  function AfterSweep(st: State, now: int): State {
    st.(perIP := map ip | ip in st.perIP && now - st.perIP[ip].lastSeen <= IDLE_EVICT :: st.perIP[ip])
  }

  function Shortfall(level: int, token: int): int {
    if level < token then token - level else 0
  }

  function Max(a: int, b: int): int { if a > b then a else b }

  /** Nanoseconds to wait, rounded up to a whole second, at least one second. */
  function RetryAfter(st: State, ip: string, now: int): int {
    var wait := Max(Shortfall(GlobalLevel(st, now), GLOBAL_TOKEN), Shortfall(Level(st, ip, now), TOKEN));
    Max((wait + SECOND - 1) / SECOND * SECOND, SECOND)
  }

  // The limiter as an object

  class AuthLimiter {
    var perIP: map<string, Bucket>
    var global: Bucket

    function Value(): State
      reads this
    {
      State(perIP, global)
    }

    constructor ()
      ensures Value() == INITIAL
    {
      perIP := map[];
      global := Bucket(GLOBAL_CAPACITY, 0);
    }

    method Allowed(ip: string, now: int) returns (ok: bool)
      modifies this
      ensures ok == IsAllowed(old(Value()), ip, now)
      ensures Value() == AfterAllowed(old(Value()), ip, now)
    {
      var gt := Refill(global, GLOBAL_CAPACITY, now);
      if gt < GLOBAL_TOKEN {
        return false;
      }
      if ip !in perIP {
        perIP := perIP[ip := Bucket(CAPACITY, now)];
        return true;
      }
      var bt := Refill(perIP[ip], CAPACITY, now);
      return bt >= TOKEN;
    }

    method RegisterFailure(ip: string, now: int)
      modifies this
      ensures Value() == AfterFailure(old(Value()), ip, now)
    {
      var gt := Refill(global, GLOBAL_CAPACITY, now);
      if gt > 0 {
        gt := gt - GLOBAL_TOKEN;
      }
      global := Bucket(gt, now);

      var b := if ip in perIP then perIP[ip] else Bucket(CAPACITY, 0);
      var bt := Refill(b, CAPACITY, now);
      if bt > 0 {
        bt := bt - TOKEN;
      }
      perIP := perIP[ip := Bucket(bt, now)];
    }

    method RetryDelay(ip: string, now: int) returns (d: int)
      ensures d == RetryAfter(Value(), ip, now)
    {
      var globalWait := 0;
      var gt := Refill(global, GLOBAL_CAPACITY, now);
      if gt < GLOBAL_TOKEN {
        globalWait := GLOBAL_TOKEN - gt;
      }
      var perIPWait := 0;
      if ip in perIP {
        var bt := Refill(perIP[ip], CAPACITY, now);
        if bt < TOKEN {
          perIPWait := TOKEN - bt;
        }
      }
      d := Max(globalWait, perIPWait);
      d := (d + SECOND - 1) / SECOND * SECOND;
      d := Max(d, SECOND);
    }

    method Sweep(now: int)
      modifies this`perIP
      ensures Value() == AfterSweep(old(Value()), now)
    {
      var todo := perIP.Keys;
      while todo != {}
        invariant todo <= old(perIP).Keys
        invariant perIP == map ip | ip in old(perIP) &&
          (ip in todo || now - old(perIP)[ip].lastSeen <= IDLE_EVICT) :: old(perIP)[ip]
        decreases todo
      {
        var ip :| ip in todo;
        if now - perIP[ip].lastSeen > IDLE_EVICT {
          perIP := perIP - {ip};
        }
        todo := todo - {ip};
      }
    }
  }

  // Runs

  datatype Op =
    | Check(ip: string, at: int)      // Allowed
    | Fail(ip: string, at: int)       // RegisterFailure
    | Retry(ip: string, at: int)      // RetryAfter
    | Sweep(at: int)

  datatype Answer = Permit(ok: bool) | Delay(d: int)

  function Step(st: State, op: Op): State {
    match op
    case Check(ip, now) => AfterAllowed(st, ip, now)
    case Fail(ip, now) => AfterFailure(st, ip, now)
    case Retry(_, _) => st
    case Sweep(now) => AfterSweep(st, now)
  }

  function Answers(st: State, op: Op): seq<Answer> {
    match op
    case Check(ip, now) => [Permit(IsAllowed(st, ip, now))]
    case Retry(ip, now) => [Delay(RetryAfter(st, ip, now))]
    case _ => []
  }

  function Run(st: State, ops: seq<Op>): State
    decreases ops
  {
    if ops == [] then st else Run(Step(st, ops[0]), ops[1..])
  }

  function AllAnswers(st: State, ops: seq<Op>): seq<Answer>
    decreases ops
  {
    if ops == [] then [] else Answers(st, ops[0]) + AllAnswers(Step(st, ops[0]), ops[1..])
  }

  /** The clock never runs backwards. */
  predicate Ordered(ops: seq<Op>, from: int) {
    && (forall i :: 0 <= i < |ops| ==> from <= ops[i].at)
    && (forall i, j :: 0 <= i < j < |ops| ==> ops[i].at <= ops[j].at)
  }

  predicate BucketOk(b: Bucket, token: int, capacity: int, now: int) {
    -token < b.tokens <= capacity && b.lastSeen <= now
  }

  predicate Valid(st: State, now: int) {
    && BucketOk(st.global, GLOBAL_TOKEN, GLOBAL_CAPACITY, now)
    && forall ip :: ip in st.perIP ==> BucketOk(st.perIP[ip], TOKEN, CAPACITY, now)
  }

  lemma StepValid(st: State, op: Op, now: int)
    requires Valid(st, now) && now <= op.at
    ensures Valid(Step(st, op), op.at)
  {}

  /** Every reachable state keeps each bucket above minus one token and at most full. */
  lemma {:induction false} RunValid(st: State, ops: seq<Op>, now: int)
    requires Valid(st, now) && Ordered(ops, now)
    ensures Valid(Run(st, ops), if ops == [] then now else ops[|ops| - 1].at)
    decreases ops
  {
    hide Valid, Step;
    if ops != [] {
      StepValid(st, ops[0], now);
      RunValid(Step(st, ops[0]), ops[1..], ops[0].at);
    }
  }

  /** Waiting refills one unit per nanosecond, up to capacity. */
  lemma LevelLater(st: State, ip: string, now: int, later: int)
    requires Valid(st, now) && now <= later
    ensures Level(st, ip, later) == (var l := Level(st, ip, now) + (later - now); if l > CAPACITY then CAPACITY else l)
    ensures GlobalLevel(st, later) ==
      (var l := GlobalLevel(st, now) + (later - now); if l > GLOBAL_CAPACITY then GLOBAL_CAPACITY else l)
  {}

  // RetryAfter is exact to the second.

  lemma RetryAfterBounds(st: State, ip: string, now: int)
    requires Valid(st, now)
    ensures var d := RetryAfter(st, ip, now);
      var wait := Max(Shortfall(GlobalLevel(st, now), GLOBAL_TOKEN), Shortfall(Level(st, ip, now), TOKEN));
      d % SECOND == 0 && SECOND <= d <= 12 * SECOND && wait <= d && (wait > 0 ==> d - SECOND < wait)
  {}

  /** With no failure in between: waiting the announced delay is enough, and for a blocked
      client one second less is not. */
  lemma RetryAfterExact(st: State, ip: string, now: int)
    requires Valid(st, now)
    ensures IsAllowed(st, ip, now + RetryAfter(st, ip, now))
    ensures !IsAllowed(st, ip, now) ==> !IsAllowed(st, ip, now + RetryAfter(st, ip, now) - SECOND)
  {}

  // Sweeping is unobservable.

  /** No query can tell the two states apart from now on. */
  ghost predicate Same(a: State, b: State, now: int) {
    a.global == b.global && forall ip: string :: Level(a, ip, now) == Level(b, ip, now)
  }

  lemma SameLater(a: State, b: State, now: int, later: int)
    requires Valid(a, now) && Valid(b, now) && Same(a, b, now) && now <= later
    ensures Same(a, b, later)
  {
    hide Level, Valid;
    forall ip: string
      ensures Level(a, ip, later) == Level(b, ip, later)
    {
      LevelLater(a, ip, now, later);
      LevelLater(b, ip, now, later);
    }
  }

  /** An evicted bucket had already refilled. */
  lemma SweepSame(st: State, now: int)
    requires Valid(st, now)
    ensures Same(AfterSweep(st, now), st, now)
  {}

  lemma StepSame(a: State, b: State, op: Op, now: int)
    requires Valid(a, now) && Valid(b, now) && Same(a, b, now) && now <= op.at && !op.Sweep?
    ensures Answers(a, op) == Answers(b, op)
    ensures Same(Step(a, op), Step(b, op), op.at)
  {
    hide Valid;
    SameLater(a, b, now, op.at);
    forall ip: string
      ensures Level(Step(a, op), ip, op.at) == Level(Step(b, op), ip, op.at)
    {
      assert Level(a, ip, op.at) == Level(b, ip, op.at);
    }
  }

  function WithoutSweeps(ops: seq<Op>): seq<Op> {
    if ops == [] then []
    else if ops[0].Sweep? then WithoutSweeps(ops[1..])
    else [ops[0]] + WithoutSweeps(ops[1..])
  }

  lemma {:induction false} SweepsUnobservable(a: State, b: State, ops: seq<Op>, now: int)
    requires Valid(a, now) && Valid(b, now) && Same(a, b, now) && Ordered(ops, now)
    ensures AllAnswers(a, ops) == AllAnswers(b, WithoutSweeps(ops))
    decreases ops
  {
    hide Valid, Same, Answers, Step;
    if ops != [] {
      var op, a' := ops[0], Step(a, ops[0]);
      StepValid(a, op, now);
      if op.Sweep? {
        SweepThenSame(a, b, now, op);
        assert Answers(a, op) == [] by { NoSweepAnswer(a, op); }
        SweepsUnobservable(a', b, ops[1..], op.at);
        assert AllAnswers(a, ops) == [] + AllAnswers(a', ops[1..]) == AllAnswers(a', ops[1..]);
      } else {
        StepSame(a, b, op, now);
        StepValid(b, op, now);
        SweepsUnobservable(a', Step(b, op), ops[1..], op.at);
        assert WithoutSweeps(ops)[1..] == WithoutSweeps(ops[1..]);
      }
    }
  }

  lemma NoSweepAnswer(st: State, op: Op)
    requires op.Sweep?
    ensures Answers(st, op) == []
  {}

  lemma SweepThenSame(a: State, b: State, now: int, op: Op)
    requires Valid(a, now) && Valid(b, now) && Same(a, b, now) && op.Sweep? && now <= op.at
    ensures Same(Step(a, op), b, op.at) && Valid(b, op.at)
  {
    SameLater(a, b, now, op.at);
    SweepSame(a, op.at);
  }

  /** From a fresh limiter, sweeps may be inserted anywhere without changing any answer. */
  lemma SweepsUnobservableFromStart(ops: seq<Op>)
    requires Ordered(ops, 0)
    ensures AllAnswers(INITIAL, ops) == AllAnswers(INITIAL, WithoutSweeps(ops))
  {
    SweepsUnobservable(INITIAL, INITIAL, ops, 0);
  }

  // Rate bounds over whole runs, for one client and for everyone together

  datatype Scope = Client(ip: string) | Everyone

  function TokenOf(scope: Scope): int { if scope.Client? then TOKEN else GLOBAL_TOKEN }

  function CapacityOf(scope: Scope): int { if scope.Client? then CAPACITY else GLOBAL_CAPACITY }

  function Tokens(st: State, scope: Scope, now: int): int {
    if scope.Client? then Level(st, scope.ip, now) else GlobalLevel(st, now)
  }

  predicate Hits(op: Op, scope: Scope) {
    op.Fail? && (scope.Client? ==> op.ip == scope.ip)
  }

  function Failures(ops: seq<Op>, scope: Scope): nat {
    if ops == [] then 0
    else Failures(ops[..|ops| - 1], scope) + (if Hits(ops[|ops| - 1], scope) then 1 else 0)
  }

  /** Each failure is registered while the bucket still holds a whole token. */
  predicate Gated(st: State, ops: seq<Op>, scope: Scope) {
    forall m :: 0 <= m < |ops| && Hits(ops[m], scope) ==> Tokens(Run(st, ops[..m]), scope, ops[m].at) >= TokenOf(scope)
  }

  /** Every window of the run, from one operation to another, respects the configured rate. */
  predicate WithinRate(ops: seq<Op>, scope: Scope) {
    forall i, j :: 0 <= i < j <= |ops| ==>
      Failures(ops[i..j], scope) * TokenOf(scope) <= CapacityOf(scope) + (ops[j - 1].at - ops[i].at)
  }

  lemma {:induction false} RunSnoc(st: State, ops: seq<Op>, m: nat)
    requires 0 < m <= |ops|
    ensures Run(st, ops[..m]) == Step(Run(st, ops[..m - 1]), ops[m - 1])
    decreases m
  {
    hide Step;
    if m == 1 {
      assert ops[..1][1..] == [] && ops[..0] == [];
      assert Run(st, ops[..1]) == Run(Step(st, ops[0]), []);
    } else {
      RunSnoc(Step(st, ops[0]), ops[1..], m - 1);
      assert ops[..m][1..] == ops[1..][..m - 1];
      assert ops[..m - 1][1..] == ops[1..][..m - 2];
    }
  }

  lemma PrefixValid(ops: seq<Op>, m: nat)
    requires Ordered(ops, 0) && m <= |ops|
    ensures Valid(Run(INITIAL, ops[..m]), if m == 0 then 0 else ops[m - 1].at)
  {
    hide Run;
    RunValid(INITIAL, ops[..m], 0);
  }

  lemma StepTokens(st: State, op: Op, scope: Scope, now: int)
    requires Valid(st, now) && now <= op.at
    ensures var l := Tokens(st, scope, op.at);
      Tokens(Step(st, op), scope, op.at) == if Hits(op, scope) then Debit(l, TokenOf(scope)) else l
  {}

  lemma TokensLater(st: State, scope: Scope, now: int, later: int)
    requires Valid(st, now) && now <= later
    ensures var l := Tokens(st, scope, now) + (later - now);
      Tokens(st, scope, later) == if l > CapacityOf(scope) then CapacityOf(scope) else l
  {}

  /** The tokens left after m operations, in terms of the tokens before the last one. */
  lemma LastStep(ops: seq<Op>, m: nat, scope: Scope)
    requires Ordered(ops, 0) && 0 < m <= |ops|
    ensures var t := ops[m - 1].at;
      var l := Tokens(Run(INITIAL, ops[..m - 1]), scope, t);
      Tokens(Run(INITIAL, ops[..m]), scope, t) == if Hits(ops[m - 1], scope) then Debit(l, TokenOf(scope)) else l
  {
    hide Run, Step, Tokens, Valid;
    PrefixValid(ops, m - 1);
    RunSnoc(INITIAL, ops, m);
    StepTokens(Run(INITIAL, ops[..m - 1]), ops[m - 1], scope, if m == 1 then 0 else ops[m - 2].at);
  }

  lemma FailuresSnoc(ops: seq<Op>, i: nat, j: nat, scope: Scope)
    requires i < j <= |ops|
    ensures Failures(ops[i..j], scope) == Failures(ops[i..j - 1], scope) + (if Hits(ops[j - 1], scope) then 1 else 0)
  {
    assert ops[i..j][..j - i - 1] == ops[i..j - 1];
  }

  /** Spending in a window comes out of a full bucket plus what the window refilled. */
  lemma {:induction false} WindowSpends(ops: seq<Op>, i: nat, j: nat, scope: Scope)
    requires Ordered(ops, 0) && Gated(INITIAL, ops, scope) && i < j <= |ops|
    ensures Failures(ops[i..j], scope) > 0 ==>
      0 <= Tokens(Run(INITIAL, ops[..j]), scope, ops[j - 1].at) <=
        CapacityOf(scope) + (ops[j - 1].at - ops[i].at) - Failures(ops[i..j], scope) * TokenOf(scope)
    decreases j
  {
    hide Run, Tokens, Valid, Failures;
    FailuresSnoc(ops, i, j, scope);
    LastStep(ops, j, scope);
    var st, t := Run(INITIAL, ops[..j - 1]), ops[j - 1].at;
    PrefixValid(ops, j - 1);
    TokensAtMostFull(st, scope, t);
    if j - 1 == i {
      assert Failures(ops[i..i], scope) == 0 by { NoFailures(ops[i..i], scope); }
    } else {
      WindowSpends(ops, i, j - 1, scope);
      TokensLater(st, scope, ops[j - 2].at, t);
    }
  }

  lemma NoFailures(ops: seq<Op>, scope: Scope)
    requires ops == []
    ensures Failures(ops, scope) == 0
  {}

  lemma TokensAtMostFull(st: State, scope: Scope, now: int)
    ensures Tokens(st, scope, now) <= CapacityOf(scope)
  {}

  /** Why a bucket is not full: some window accounts for exactly what is missing. */
  lemma {:induction false} Deficit(ops: seq<Op>, m: nat, scope: Scope, now: int) returns (k: nat)
    requires m <= |ops| && Ordered(ops, 0) && Gated(INITIAL, ops[..m], scope)
    requires if m == 0 then 0 <= now else ops[m - 1].at <= now
    ensures Tokens(Run(INITIAL, ops[..m]), scope, now) == CapacityOf(scope) ||
      (k < m && Tokens(Run(INITIAL, ops[..m]), scope, now) ==
        CapacityOf(scope) + (now - ops[k].at) - Failures(ops[k..m], scope) * TokenOf(scope))
    decreases m
  {
    hide Run, Tokens, Valid, Failures;
    k := 0;
    PrefixValid(ops, m);
    if m == 0 {
      assert Tokens(Run(INITIAL, ops[..0]), scope, now) == CapacityOf(scope) by { StartsFull(scope, now); }
    } else {
      var t := ops[m - 1].at;
      assert ops[..m][..m - 1] == ops[..m - 1];
      GatedPrefix(ops[..m], m - 1, scope);
      k := Deficit(ops, m - 1, scope, t);
      LastStep(ops, m, scope);
      TokensLater(Run(INITIAL, ops[..m]), scope, t, now);
      var before := Tokens(Run(INITIAL, ops[..m - 1]), scope, t);
      if before == CapacityOf(scope) {
        k := m - 1;
        NoFailures(ops[m - 1..m - 1], scope);
      }
      FailuresSnoc(ops, k, m, scope);
    }
  }

  lemma StartsFull(scope: Scope, now: int)
    requires 0 <= now
    ensures Tokens(Run(INITIAL, []), scope, now) == CapacityOf(scope)
  {}

  lemma GatedPrefix(ops: seq<Op>, m: nat, scope: Scope)
    requires Gated(INITIAL, ops, scope) && m <= |ops|
    ensures Gated(INITIAL, ops[..m], scope)
  {
    hide Run, Tokens;
    forall i | 0 <= i < m
      ensures ops[..m][..i] == ops[..i]
    {}
  }

  /** A run respects the rate in every window exactly when each failure found a whole token. */
  lemma RateBoundExact(ops: seq<Op>, scope: Scope)
    requires Ordered(ops, 0)
    ensures WithinRate(ops, scope) <==> Gated(INITIAL, ops, scope)
  {
    hide Run, Tokens, Failures;
    if Gated(INITIAL, ops, scope) {
      forall i, j | 0 <= i < j <= |ops|
        ensures Failures(ops[i..j], scope) * TokenOf(scope) <= CapacityOf(scope) + (ops[j - 1].at - ops[i].at)
      {
        WindowSpends(ops, i, j, scope);
      }
    } else {
      assert ops[..|ops|] == ops;
      var m := FirstUngated(ops, scope, |ops|);
      var t := ops[m].at;
      var k := Deficit(ops, m, scope, t);
      FailuresSnoc(ops, k, m + 1, scope);
      assert !(Failures(ops[k..m + 1], scope) * TokenOf(scope) <= CapacityOf(scope) + (ops[m + 1 - 1].at - ops[k].at));
    }
  }

  lemma {:induction false} FirstUngated(ops: seq<Op>, scope: Scope, n: nat) returns (m: nat)
    requires n <= |ops| && !Gated(INITIAL, ops[..n], scope)
    ensures m < n && Hits(ops[m], scope) && Gated(INITIAL, ops[..m], scope)
    ensures Tokens(Run(INITIAL, ops[..m]), scope, ops[m].at) < TokenOf(scope)
    decreases n
  {
    hide Run, Tokens;
    var i :| 0 <= i < n && Hits(ops[..n][i], scope) &&
      Tokens(Run(INITIAL, ops[..n][..i]), scope, ops[..n][i].at) < TokenOf(scope);
    assert ops[..n][..i] == ops[..i];
    if Gated(INITIAL, ops[..i], scope) {
      m := i;
    } else {
      m := FirstUngated(ops, scope, i);
    }
  }

  // The check and the failure are separate critical sections.

  function Times(op: Op, n: nat): seq<Op> { seq(n, _ => op) }

  lemma {:induction false} ChecksAllPass(st: State, ip: string, n: nat)
    requires IsAllowed(st, ip, 0)
    ensures AllAnswers(st, Times(Check(ip, 0), n)) == seq(n, _ => Permit(true))
    decreases n
  {
    if n > 0 {
      var c := Check(ip, 0);
      ChecksAllPass(Step(st, c), ip, n - 1);
      assert Times(c, n)[1..] == Times(c, n - 1);
      assert seq(n, _ => Permit(true)) == [Permit(true)] + seq(n - 1, _ => Permit(true));
    }
  }

  lemma {:induction false} CountFailures(ip: string, n: nat)
    ensures Failures(Times(Fail(ip, 0), n), Client(ip)) == n
  {
    if n > 0 {
      CountFailures(ip, n - 1);
      assert Times(Fail(ip, 0), n)[..n - 1] == Times(Fail(ip, 0), n - 1);
    }
  }

  /** Any number of concurrent handlers can pass the check before the first failure is registered, and with more than
      five of them the rate is exceeded. */
  lemma InterleavedHandlersExceedRate(ip: string, n: nat)
    requires n > 5
    ensures AllAnswers(INITIAL, Times(Check(ip, 0), n)) == seq(n, _ => Permit(true))
    ensures !WithinRate(Times(Check(ip, 0), n) + Times(Fail(ip, 0), n), Client(ip))
  {
    hide Failures;
    ChecksAllPass(INITIAL, ip, n);
    CountFailures(ip, n);
    var ops := Times(Check(ip, 0), n) + Times(Fail(ip, 0), n);
    assert ops[n..2 * n] == Times(Fail(ip, 0), n);
  }
}
