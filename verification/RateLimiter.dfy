/** The per-address request limiter: fixed windows, a read-only preview, and a sweep of expired entries. */
module RateLimiter {
  import opened FixedWindow

  datatype Info = Info(count: int, windowEnd: Time)

  type State = map<string, Info>

  datatype Config = Config(limit: int, window: nat)

  datatype Op =
    | Allow(ip: string, now: Time)
    | Remaining(ip: string, now: Time)
    | Reset(ip: string, now: Time)
    | Sweep(now: Time)

  // ----- one step

  predicate Live(s: State, ip: string, now: Time)
  {
    ip in s && now <= s[ip].windowEnd
  }

  predicate Granted(c: Config, s: State, ip: string, now: Time)
  {
    Live(s, ip, now) ==> s[ip].count < c.limit
  }

  function AfterAllow(c: Config, s: State, ip: string, now: Time): State
  {
    if !Live(s, ip, now) then s[ip := Info(1, now + c.window)]
    else if s[ip].count >= c.limit then s
    else s[ip := Info(s[ip].count + 1, s[ip].windowEnd)]
  }

  function RemainingOf(c: Config, s: State, ip: string, now: Time): int
  {
    if !Live(s, ip, now) then c.limit
    else if c.limit - s[ip].count < 0 then 0 else c.limit - s[ip].count
  }

  function AfterSweep(s: State, now: Time): State
  {
    map ip | ip in s && now <= s[ip].windowEnd :: s[ip]
  }

  function Step(c: Config, s: State, op: Op): State
  {
    match op
    case Allow(ip, now) => AfterAllow(c, s, ip, now)
    case Remaining(_, _) => s
    case Reset(ip, _) => s - {ip}
    case Sweep(now) => AfterSweep(s, now)
  }

  // ----- whole runs

  function Run(c: Config, s: State, ops: seq<Op>): State
  {
    if ops == [] then s else Step(c, Run(c, s, ops[..|ops| - 1]), ops[|ops| - 1])
  }

  datatype Answer = Verdict(ok: bool) | Left(n: int)

  predicate Asks(op: Op, ip: string)
  {
    (op.Allow? || op.Remaining?) && op.ip == ip
  }

  function AnswerTo(c: Config, s: State, op: Op): Answer
    requires op.Allow? || op.Remaining?
  {
    if op.Allow? then Verdict(Granted(c, s, op.ip, op.now)) else Left(RemainingOf(c, s, op.ip, op.now))
  }

  /** Everything ip is told in the course of ops. */
  function Answers(c: Config, s: State, ops: seq<Op>, ip: string): seq<Answer>
  {
    if ops == [] then []
    else
      var n := |ops| - 1;
      Answers(c, s, ops[..n], ip)
      + if Asks(ops[n], ip) then [AnswerTo(c, Run(c, s, ops[..n]), ops[n])] else []
  }

  /** ip's own operations. */
  function Own(ops: seq<Op>, ip: string): seq<Op>
  {
    if ops == [] then []
    else
      var n := |ops| - 1;
      Own(ops[..n], ip) + if !ops[n].Sweep? && ops[n].ip == ip then [ops[n]] else []
  }

  ghost predicate Monotone(ops: seq<Op>)
  {
    forall i, j :: 0 <= i < j < |ops| ==> ops[i].now <= ops[j].now
  }

  /** s and r agree on ip, or ip was swept from s after its window in r had ended. */
  ghost predicate Agree(s: State, r: State, ip: string, now: Time)
  {
    && (ip in s ==> ip in r && s[ip] == r[ip])
    && (ip in r && ip !in s ==> r[ip].windowEnd < now)
  }

  lemma OwnStepAgrees(c: Config, s: State, r: State, op: Op, ip: string, now: Time)
    requires Agree(s, r, ip, op.now) && op.now <= now && !op.Sweep? && op.ip == ip
    ensures Agree(Step(c, s, op), Step(c, r, op), ip, now)
    ensures Asks(op, ip) ==> AnswerTo(c, s, op) == AnswerTo(c, r, op)
  {
  }

  lemma OtherStepAgrees(c: Config, s: State, r: State, op: Op, ip: string, now: Time)
    requires Agree(s, r, ip, op.now) && op.now <= now && (op.Sweep? || op.ip != ip)
    ensures Agree(Step(c, s, op), r, ip, now)
  {
  }

  lemma {:induction false} OwnRunAgrees(c: Config, ops: seq<Op>, ip: string, now: Time)
    requires Monotone(ops) && (ops != [] ==> ops[|ops| - 1].now <= now)
    ensures Agree(Run(c, map[], ops), Run(c, map[], Own(ops, ip)), ip, now)
    ensures Answers(c, map[], ops, ip) == Answers(c, map[], Own(ops, ip), ip)
  {
    if ops != [] {
      var n := |ops| - 1;
      var op, own := ops[n], Own(ops[..n], ip);
      OwnRunAgrees(c, ops[..n], ip, op.now);
      var s, r := Run(c, map[], ops[..n]), Run(c, map[], own);
      if !op.Sweep? && op.ip == ip {
        assert (own + [op])[..|own|] == own;
        OwnStepAgrees(c, s, r, op, ip, now);
      } else {
        assert Own(ops, ip) == own;
        OtherStepAgrees(c, s, r, op, ip, now);
      }
    }
  }

  /** What ip is told depends only on ip's own operations: other addresses and every sweep are invisible. */
  lemma NonInterference(c: Config, ops: seq<Op>, ip: string)
    requires Monotone(ops)
    ensures Answers(c, map[], ops, ip) == Answers(c, map[], Own(ops, ip), ip)
  {
    OwnRunAgrees(c, ops, ip, if ops == [] then 0 else ops[|ops| - 1].now);
  }

  // ----- how much is granted

  function Effective(c: Config): nat
  {
    if c.limit < 1 then 1 else c.limit
  }

  /** ip's grants, each with the opening time of the window it was counted in. */
  function GrantLog(c: Config, ops: seq<Op>, ip: string): seq<Grant>
  {
    if ops == [] then []
    else
      var n := |ops| - 1;
      var s, op := Run(c, map[], ops[..n]), ops[n];
      GrantLog(c, ops[..n], ip)
      + if op.Allow? && op.ip == ip && Granted(c, s, ip, op.now)
        then [GrantAt(c, s, ip, op.now)] else []
  }

  /** The entry of ip mirrors the last window of its log; a missing entry means that window is over. */
  ghost predicate Mirrors(c: Config, s: State, log: seq<Grant>, ip: string, now: Time)
  {
    if log == [] then ip !in s
    else
      var last := log[|log| - 1];
      && last.at <= now
      && (ip in s ==>
        && s[ip].windowEnd == last.open + c.window
        && s[ip].count == CountOpened(log, last.open) && s[ip].count <= Effective(c))
      && (ip !in s ==> last.open + c.window < now)
  }

  function GrantAt(c: Config, s: State, ip: string, now: Time): Grant
  {
    Grant(AfterAllow(c, s, ip, now)[ip].windowEnd - c.window, now)
  }

  lemma GrantExtends(c: Config, s: State, log: seq<Grant>, ip: string, now: Time)
    requires Disciplined(log, c.window, Effective(c)) && Mirrors(c, s, log, ip, now) && Granted(c, s, ip, now)
    ensures var g := GrantAt(c, s, ip, now);
            && Disciplined(log + [g], c.window, Effective(c))
            && CountOpened(log + [g], g.open) == CountOpened(log, g.open) + 1
            && (!Live(s, ip, now) ==> CountOpened(log, g.open) == 0)
  {
    var g := GrantAt(c, s, ip, now);
    if !Live(s, ip, now) { LaterOpensAreNew(log, c.window, Effective(c), g.open); }
    hide Disciplined, CountOpened;
    DisciplinedSnoc(log, g, c.window, Effective(c));
  }

  lemma GrantMirrors(c: Config, s: State, log: seq<Grant>, ip: string, at: Time, now: Time)
    requires Disciplined(log, c.window, Effective(c)) && Mirrors(c, s, log, ip, at) && Granted(c, s, ip, at) && at <= now
    ensures Mirrors(c, AfterAllow(c, s, ip, at), log + [GrantAt(c, s, ip, at)], ip, now)
  {
    hide Disciplined, CountOpened;
    GrantExtends(c, s, log, ip, at);
  }

  lemma RunNext(c: Config, ops: seq<Op>)
    requires ops != []
    ensures Run(c, map[], ops) == Step(c, Run(c, map[], ops[..|ops| - 1]), ops[|ops| - 1])
  {
  }

  lemma GrantNext(c: Config, ops: seq<Op>, ip: string)
    requires ops != [] && ops[|ops| - 1].Allow? && ops[|ops| - 1].ip == ip
    requires Granted(c, Run(c, map[], ops[..|ops| - 1]), ip, ops[|ops| - 1].now)
    ensures var n := |ops| - 1;
            GrantLog(c, ops, ip) == GrantLog(c, ops[..n], ip) + [GrantAt(c, Run(c, map[], ops[..n]), ip, ops[n].now)]
  {
    hide Run;
  }

  lemma NoGrantNext(c: Config, ops: seq<Op>, ip: string)
    requires ops != []
    requires var op := ops[|ops| - 1];
             !(op.Allow? && op.ip == ip && Granted(c, Run(c, map[], ops[..|ops| - 1]), ip, op.now))
    ensures GrantLog(c, ops, ip) == GrantLog(c, ops[..|ops| - 1], ip)
  {
    hide Run;
  }

  lemma {:induction false} LogDisciplined(c: Config, ops: seq<Op>, ip: string, now: Time)
    requires Monotone(ops) && (ops != [] ==> ops[|ops| - 1].now <= now)
    requires forall op :: op in ops && op.Reset? ==> op.ip != ip
    ensures Disciplined(GrantLog(c, ops, ip), c.window, Effective(c))
    ensures Mirrors(c, Run(c, map[], ops), GrantLog(c, ops, ip), ip, now)
  {
    if ops != [] {
      var n := |ops| - 1;
      var op, s, log := ops[n], Run(c, map[], ops[..n]), GrantLog(c, ops[..n], ip);
      LogDisciplined(c, ops[..n], ip, op.now);
      hide Disciplined, CountOpened, Run, GrantLog;
      assert Run(c, map[], ops) == Step(c, s, op) by { RunNext(c, ops); }
      if op.Allow? && op.ip == ip && Granted(c, s, ip, op.now) {
        GrantNext(c, ops, ip);
        GrantExtends(c, s, log, ip, op.now);
        GrantMirrors(c, s, log, ip, op.now, now);
      } else {
        assert GrantLog(c, ops, ip) == log by { NoGrantNext(c, ops, ip); }
      }
    }
  }

  /**
   However sweeps and other addresses interleave, one address gets at most limit grants in each of its
   windows and at most 2 * limit - 1 in any closed interval of one window length.
   */
  lemma GrantBounds(c: Config, ops: seq<Op>, ip: string, open: Time, a: Time)
    requires Monotone(ops) && c.limit > 0
    requires forall op :: op in ops && op.Reset? ==> op.ip != ip
    ensures CountOpened(GrantLog(c, ops, ip), open) <= c.limit
    ensures CountIn(GrantLog(c, ops, ip), a, a + c.window) <= 2 * c.limit - 1
  {
    LogDisciplined(c, ops, ip, if ops == [] then 0 else ops[|ops| - 1].now);
    WindowBound(GrantLog(c, ops, ip), c.window, c.limit, open);
    SlidingBound(GrantLog(c, ops, ip), c.window, c.limit, a);
  }

  /**
   With a positive limit a call is granted if and only if the address was never granted anything, or the window of
   its last grant is over, or that window holds fewer than limit grants.
   */
  lemma GrantedIff(c: Config, ops: seq<Op>, ip: string, now: Time)
    requires c.limit > 0 && Monotone(ops) && (ops != [] ==> ops[|ops| - 1].now <= now)
    requires forall op :: op in ops && op.Reset? ==> op.ip != ip
    ensures var log := GrantLog(c, ops, ip);
            Granted(c, Run(c, map[], ops), ip, now) <==>
              (|| log == [] || log[|log| - 1].open + c.window < now
               || CountOpened(log, log[|log| - 1].open) < c.limit)
  {
    LogDisciplined(c, ops, ip, now);
    hide Run, GrantLog, Disciplined, CountOpened;
  }

  // ----- the sliding bound is attained

  /** n calls by ip at time t, after ops. */
  function WithBurst(ops: seq<Op>, ip: string, t: Time, n: nat): seq<Op>
  {
    if n == 0 then ops else WithBurst(ops, ip, t, n - 1) + [Allow(ip, t)]
  }

  /** While the window is live and has room, every call of a burst is granted. */
  lemma {:induction false} BurstGranted(c: Config, ops: seq<Op>, ip: string, t: Time, n: nat, lo: Time, hi: Time)
    requires var s := Run(c, map[], ops); Live(s, ip, t) && s[ip].count + n <= c.limit
    requires lo <= t <= hi
    ensures var s, r := Run(c, map[], ops), Run(c, map[], WithBurst(ops, ip, t, n));
            ip in r && r[ip] == Info(s[ip].count + n, s[ip].windowEnd)
    ensures CountIn(GrantLog(c, WithBurst(ops, ip, t, n), ip), lo, hi) == CountIn(GrantLog(c, ops, ip), lo, hi) + n
  {
    hide Run, GrantLog, CountIn;
    if n > 0 {
      BurstGranted(c, ops, ip, t, n - 1, lo, hi);
      OneMoreGrant(c, WithBurst(ops, ip, t, n - 1), ip, t, lo, hi);
    }
  }

  lemma OneMoreGrant(c: Config, ops: seq<Op>, ip: string, t: Time, lo: Time, hi: Time)
    requires Granted(c, Run(c, map[], ops), ip, t)
    ensures Run(c, map[], ops + [Allow(ip, t)]) == AfterAllow(c, Run(c, map[], ops), ip, t)
    ensures CountIn(GrantLog(c, ops + [Allow(ip, t)], ip), lo, hi)
         == CountIn(GrantLog(c, ops, ip), lo, hi) + if lo <= t <= hi then 1 else 0
  {
    var longer := ops + [Allow(ip, t)];
    assert longer[..|ops|] == ops;
    GrantNext(c, longer, ip);
    var log, g := GrantLog(c, ops, ip), GrantAt(c, Run(c, map[], ops), ip, t);
    assert (log + [g])[..|log|] == log;
  }

  /** One early call, the rest of that window's budget at its very end, and a full budget one tick later. */
  function EdgeBurst(c: Config, ip: string): seq<Op>
    requires c.limit > 0
  {
    var first := [Allow(ip, 0)];
    var full := WithBurst(first, ip, c.window, c.limit - 1);
    WithBurst(full + [Allow(ip, c.window + 1)], ip, c.window + 1, c.limit - 1)
  }

  /** For every positive limit some run really gets 2 * limit - 1 grants within one window length. */
  lemma SlidingBoundAttained(c: Config, ip: string)
    requires c.limit > 0 && c.window > 0
    ensures CountIn(GrantLog(c, EdgeBurst(c, ip), ip), 1, 1 + c.window) == 2 * c.limit - 1
  {
    hide CountIn, Run, GrantLog, WithBurst;
    var first := [Allow(ip, 0)];
    FirstGrant(c, ip);
    BurstGranted(c, first, ip, c.window, c.limit - 1, 1, 1 + c.window);
    var full := WithBurst(first, ip, c.window, c.limit - 1);
    OneMoreGrant(c, full, ip, c.window + 1, 1, 1 + c.window);
    BurstGranted(c, full + [Allow(ip, c.window + 1)], ip, c.window + 1, c.limit - 1, 1, 1 + c.window);
  }

  lemma FirstGrant(c: Config, ip: string)
    ensures Run(c, map[], [Allow(ip, 0)]) == map[ip := Info(1, c.window)]
    ensures CountIn(GrantLog(c, [Allow(ip, 0)], ip), 1, 1 + c.window) == 0
  {
    assert Run(c, map[], []) == map[] && GrantLog(c, [], ip) == [];
    assert [] + [Allow(ip, 0)] == [Allow(ip, 0)];
    OneMoreGrant(c, [], ip, 0, 1, 1 + c.window);
  }

  // ----- Remaining predicts Allow

  /** ip's verdicts in the course of ops, from state s. */
  function Verdicts(c: Config, s: State, ops: seq<Op>, ip: string): seq<bool>
  {
    if ops == [] then []
    else
      var n := |ops| - 1;
      Verdicts(c, s, ops[..n], ip)
      + if ops[n].Allow? && ops[n].ip == ip then [Granted(c, Run(c, s, ops[..n]), ip, ops[n].now)] else []
  }

  ghost predicate Undisturbed(ops: seq<Op>, ip: string, end: Time)
  {
    forall op :: op in ops ==> op.now <= end && (op.Reset? ==> op.ip != ip)
  }

  /** The first k verdicts are grants and the rest are refusals. */
  ghost predicate Countdown(verdicts: seq<bool>, k: int)
  {
    forall i :: 0 <= i < |verdicts| ==> (verdicts[i] <==> i < k)
  }

  lemma {:induction false} LiveCountdown(c: Config, s: State, ops: seq<Op>, ip: string)
    requires ip in s && Undisturbed(ops, ip, s[ip].windowEnd)
    ensures Countdown(Verdicts(c, s, ops, ip), c.limit - s[ip].count)
    ensures var r, n := Run(c, s, ops), |Verdicts(c, s, ops, ip)|;
            && ip in r && r[ip].windowEnd == s[ip].windowEnd
            && r[ip].count == if s[ip].count + n <= c.limit then s[ip].count + n
                              else if s[ip].count <= c.limit then c.limit else s[ip].count
  {
    if ops != [] {
      LiveCountdown(c, s, ops[..|ops| - 1], ip);
    }
  }

  lemma {:induction false} RunConcat(c: Config, s: State, a: seq<Op>, b: seq<Op>, ip: string)
    ensures Run(c, s, a + b) == Run(c, Run(c, s, a), b)
    ensures Verdicts(c, s, a + b, ip) == Verdicts(c, s, a, ip) + Verdicts(c, Run(c, s, a), b, ip)
  {
    if b == [] {
      assert a + b == a;
    } else {
      var n := |b| - 1;
      assert (a + b)[..|a + b| - 1] == a + b[..n];
      RunConcat(c, s, a, b[..n], ip);
    }
  }

  /**
   If Remaining answers k at time now, then within that window exactly the next k calls are granted and all
   later ones refused, whatever other addresses and sweeps do meanwhile. The window is the live one, or the
   one that the next call opens.
   */
  lemma RemainingPredicts(c: Config, s: State, ops: seq<Op>, ip: string, now: Time)
    requires c.limit > 0
    requires if Live(s, ip, now) then Undisturbed(ops, ip, s[ip].windowEnd)
             else ops != [] && ops[0] == Allow(ip, now) && Undisturbed(ops, ip, now + c.window)
    ensures Countdown(Verdicts(c, s, ops, ip), RemainingOf(c, s, ip, now))
  {
    hide Run, Verdicts;
    if Live(s, ip, now) {
      LiveCountdown(c, s, ops, ip);
    } else {
      var first, rest := [Allow(ip, now)], ops[1..];
      assert ops == first + rest;
      RunConcat(c, s, first, rest, ip);
      OpeningCall(c, s, ip, now);
      LiveCountdown(c, Run(c, s, first), rest, ip);
    }
  }

  lemma OpeningCall(c: Config, s: State, ip: string, now: Time)
    requires !Live(s, ip, now)
    ensures Run(c, s, [Allow(ip, now)]) == s[ip := Info(1, now + c.window)]
    ensures Verdicts(c, s, [Allow(ip, now)], ip) == [true]
  {
    assert [Allow(ip, now)][..0] == [];
    assert Run(c, s, []) == s;
  }

  /** The preview announces a grant exactly when the next call gets one. */
  ghost predicate Honest(c: Config, ops: seq<Op>, ip: string, now: Time)
  {
    var s := Run(c, map[], ops);
    Granted(c, s, ip, now) <==> RemainingOf(c, s, ip, now) > 0
  }

  /** The preview is right after every run if and only if the limit is positive. */
  lemma RemainingHonestIff(c: Config)
    ensures (forall ops, ip, now :: Honest(c, ops, ip, now)) <==> c.limit > 0
  {
    if c.limit <= 0 {
      assert Run(c, map[], []) == map[];
      assert !Honest(c, [], "", 0);
    }
  }

  /**
   Without a positive limit a call is granted exactly when the address got nothing for one window length, and
   the preview never announces one.
   */
  lemma ZeroLimitRuns(c: Config, ops: seq<Op>, ip: string, now: Time)
    requires c.limit <= 0 && Monotone(ops) && (ops != [] ==> ops[|ops| - 1].now <= now)
    requires forall op :: op in ops && op.Reset? ==> op.ip != ip
    ensures var s, log := Run(c, map[], ops), GrantLog(c, ops, ip);
            && RemainingOf(c, s, ip, now) <= 0
            && (Granted(c, s, ip, now) <==> log == [] || log[|log| - 1].at + c.window < now)
            && forall i :: 0 < i < |log| ==> log[i - 1].at + c.window < log[i].at
  {
    LogDisciplined(c, ops, ip, now);
    SingleGrants(GrantLog(c, ops, ip), c.window);
    hide Run, GrantLog, Disciplined;
    var log := GrantLog(c, ops, ip);
    if log != [] { assert CountOpened(log, log[|log| - 1].open) >= 1; }
  }

  // ----- the limiter

  class Limiter {
    const config: Config
    var requests: State
    ghost var history: seq<Op>

    ghost predicate Valid()
      reads this
    {
      requests == Run(config, map[], history)
    }

    constructor (limit: int, window: nat)
      ensures Valid() && history == [] && config == Config(limit, window)
    {
      config := Config(limit, window);
      requests := map[];
      history := [];
    }

    ghost method Record(op: Op)
      modifies this`history
      ensures history == old(history) + [op]
      ensures Run(config, map[], history) == Step(config, Run(config, map[], old(history)), op)
    {
      history := history + [op];
      assert history[..|history| - 1] == old(history);
    }

    method AllowRequest(ip: string, now: Time) returns (ok: bool)
      requires Valid()
      modifies this
      ensures Valid() && history == old(history) + [Allow(ip, now)]
      ensures ok == Granted(config, old(requests), ip, now)
    {
      if ip !in requests || now > requests[ip].windowEnd {
        requests := requests[ip := Info(1, now + config.window)];
        ok := true;
      } else if requests[ip].count >= config.limit {
        ok := false;
      } else {
        requests := requests[ip := requests[ip].(count := requests[ip].count + 1)];
        ok := true;
      }
      Record(Allow(ip, now));
    }

    method RemainingRequests(ip: string, now: Time) returns (n: int)
      requires Valid()
      ensures n == RemainingOf(config, requests, ip, now)
    {
      if ip !in requests || now > requests[ip].windowEnd {
        return config.limit;
      }
      n := config.limit - requests[ip].count;
      if n < 0 { n := 0; }
    }

    method ResetAddress(ip: string, ghost now: Time)
      requires Valid()
      modifies this
      ensures Valid() && history == old(history) + [Reset(ip, now)]
      ensures requests == old(requests) - {ip}
    {
      requests := requests - {ip};
      Record(Reset(ip, now));
    }

    method CleanUp(now: Time)
      requires Valid()
      modifies this
      ensures Valid() && history == old(history) + [Sweep(now)]
      ensures forall ip :: ip in old(requests) ==> (ip in requests <==> now <= old(requests)[ip].windowEnd)
    {
      var todo := requests.Keys;
      while todo != {}
        invariant history == old(history) && todo <= old(requests).Keys
        invariant requests == map ip | ip in old(requests)
                                && (ip in todo || now <= old(requests)[ip].windowEnd) :: old(requests)[ip]
        decreases todo
      {
        var ip :| ip in todo;
        if now > requests[ip].windowEnd {
          requests := requests - {ip};
        }
        todo := todo - {ip};
      }
      Record(Sweep(now));
    }
  }
}
