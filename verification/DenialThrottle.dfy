/** The throttle on audit rows for refused requests: bounded rows per actor, but no refusal is lost. */
module DenialThrottle {
  import opened FixedWindow

  type UserId = nat

  datatype Window = Window(windowEnd: Time, emitted: nat, suppressed: nat)

  type State = map<UserId, Window>

  datatype Config = Config(limit: int, window: nat)

  datatype Op = Admit(user: UserId, now: Time) | Forget(now: Time)

  /** What admit answers: whether to write a row, and how many swallowed refusals it reports. */
  datatype Outcome = Outcome(write: bool, suppressed: nat)

  // ----- one step

  /** The entry an actor has once admit has looked it up and rolled its window. */
  function Current(c: Config, s: State, user: UserId, now: Time): Window
  {
    var e := if user in s then s[user] else Window(0, 0, 0);
    if now > e.windowEnd then Window(now + c.window, 0, e.suppressed) else e
  }

  predicate Written(c: Config, s: State, user: UserId, now: Time)
  {
    Current(c, s, user, now).emitted < c.limit
  }

  function AfterAdmit(c: Config, s: State, user: UserId, now: Time): State
  {
    var e := Current(c, s, user, now);
    s[user := if e.emitted < c.limit then Window(e.windowEnd, e.emitted + 1, 0)
              else Window(e.windowEnd, e.emitted, e.suppressed + 1)]
  }

  function OutcomeOf(c: Config, s: State, user: UserId, now: Time): Outcome
  {
    if Written(c, s, user, now) then Outcome(true, Outstanding(s, user)) else Outcome(false, 0)
  }

  /** Refusals swallowed and not yet reported. */
  function Outstanding(s: State, user: UserId): nat
  {
    if user in s then s[user].suppressed else 0
  }

  predicate Spent(w: Window, now: Time)
  {
    now > w.windowEnd && w.suppressed == 0
  }

  function AfterForget(s: State, now: Time): State
  {
    map user | user in s && !Spent(s[user], now) :: s[user]
  }

  function Step(c: Config, s: State, op: Op): State
  {
    match op
    case Admit(user, now) => AfterAdmit(c, s, user, now)
    case Forget(now) => AfterForget(s, now)
  }

  // ----- whole runs

  function Run(c: Config, ops: seq<Op>): State
  {
    if ops == [] then map[] else Step(c, Run(c, ops[..|ops| - 1]), ops[|ops| - 1])
  }

  /** The outcomes of user's calls, in order. */
  function Outcomes(c: Config, ops: seq<Op>, user: UserId): seq<Outcome>
  {
    if ops == [] then []
    else
      var n := |ops| - 1;
      Outcomes(c, ops[..n], user)
      + if ops[n].Admit? && ops[n].user == user then [OutcomeOf(c, Run(c, ops[..n]), user, ops[n].now)] else []
  }

  function Own(ops: seq<Op>, user: UserId): seq<Op>
  {
    if ops == [] then []
    else
      var n := |ops| - 1;
      Own(ops[..n], user) + if ops[n].Admit? && ops[n].user == user then [ops[n]] else []
  }

  ghost predicate Monotone(ops: seq<Op>)
  {
    forall i, j :: 0 <= i < j < |ops| ==> ops[i].now <= ops[j].now
  }

  // ----- no refusal is lost

  function Rows(outcomes: seq<Outcome>): nat
  {
    if outcomes == [] then 0
    else Rows(outcomes[..|outcomes| - 1]) + if outcomes[|outcomes| - 1].write then 1 else 0
  }

  function Reported(outcomes: seq<Outcome>): nat
  {
    if outcomes == [] then 0 else Reported(outcomes[..|outcomes| - 1]) + outcomes[|outcomes| - 1].suppressed
  }

  /** How many outcomes at the end of the list wrote no row. */
  function SwallowedSince(outcomes: seq<Outcome>): nat
  {
    if outcomes == [] || outcomes[|outcomes| - 1].write then 0
    else SwallowedSince(outcomes[..|outcomes| - 1]) + 1
  }

  lemma OutcomesSnoc(c: Config, ops: seq<Op>, user: UserId)
    requires ops != [] && ops[|ops| - 1].Admit? && ops[|ops| - 1].user == user
    ensures var n, outs := |ops| - 1, Outcomes(c, ops, user);
            && outs != []
            && outs[..|outs| - 1] == Outcomes(c, ops[..n], user)
            && outs[|outs| - 1] == OutcomeOf(c, Run(c, ops[..n]), user, ops[n].now)
  {
  }

  /** The outstanding count is exactly the number of refusals swallowed since the last written row. */
  lemma {:induction false} OutstandingExact(c: Config, ops: seq<Op>, user: UserId)
    ensures Outstanding(Run(c, ops), user) == SwallowedSince(Outcomes(c, ops, user))
  {
    if ops != [] {
      var n := |ops| - 1;
      OutstandingExact(c, ops[..n], user);
      if ops[n].Admit? && ops[n].user == user {
        OutcomesSnoc(c, ops, user);
      } else {
        assert Outcomes(c, ops, user) == Outcomes(c, ops[..n], user);
      }
    }
  }

  /** A written row reports exactly the refusals swallowed since the row before it. */
  lemma RowReportsSwallowed(c: Config, ops: seq<Op>, user: UserId, now: Time)
    ensures var out := OutcomeOf(c, Run(c, ops), user, now);
            out.suppressed == if out.write then SwallowedSince(Outcomes(c, ops, user)) else 0
  {
    OutstandingExact(c, ops, user);
  }

  /** At every point of every run: refusals == rows + reported + outstanding. The clock may even step back. */
  lemma {:induction false} Conservation(c: Config, ops: seq<Op>, user: UserId)
    ensures var outs := Outcomes(c, ops, user);
            |Own(ops, user)| == |outs| == Rows(outs) + Reported(outs) + Outstanding(Run(c, ops), user)
  {
    if ops != [] {
      var n := |ops| - 1;
      Conservation(c, ops[..n], user);
      if ops[n].Admit? && ops[n].user == user {
        OutcomesSnoc(c, ops, user);
      } else {
        assert Outcomes(c, ops, user) == Outcomes(c, ops[..n], user);
        assert Own(ops, user) == Own(ops[..n], user);
      }
    }
  }

  // ----- non-interference

  ghost predicate Sane(s: State)
  {
    forall user :: user in s ==> 0 <= s[user].windowEnd
  }

  /** s and r agree on user, or user was forgotten in s with nothing outstanding after its window had ended. */
  ghost predicate Agree(s: State, r: State, user: UserId, now: Time)
  {
    && Sane(s) && Sane(r)
    && (user in s ==> user in r && s[user] == r[user])
    && (user in r && user !in s ==> Spent(r[user], now))
  }

  lemma OwnStepAgrees(c: Config, s: State, r: State, op: Op, user: UserId, now: Time)
    requires Agree(s, r, user, op.now) && op.now <= now && op.Admit? && op.user == user
    ensures Agree(Step(c, s, op), Step(c, r, op), user, now)
    ensures OutcomeOf(c, s, user, op.now) == OutcomeOf(c, r, user, op.now)
  {
  }

  lemma OtherStepAgrees(c: Config, s: State, r: State, op: Op, user: UserId, now: Time)
    requires Agree(s, r, user, op.now) && op.now <= now && (op.Forget? || op.user != user)
    ensures Agree(Step(c, s, op), r, user, now)
  {
  }

  lemma {:induction false} OwnRunAgrees(c: Config, ops: seq<Op>, user: UserId, now: Time)
    requires Monotone(ops) && (ops != [] ==> ops[|ops| - 1].now <= now)
    ensures Agree(Run(c, ops), Run(c, Own(ops, user)), user, now)
    ensures Outcomes(c, ops, user) == Outcomes(c, Own(ops, user), user)
  {
    if ops != [] {
      var n := |ops| - 1;
      var op, own := ops[n], Own(ops[..n], user);
      OwnRunAgrees(c, ops[..n], user, op.now);
      var s, r := Run(c, ops[..n]), Run(c, own);
      if op.Admit? && op.user == user {
        assert (own + [op])[..|own|] == own;
        OwnStepAgrees(c, s, r, op, user, now);
      } else {
        assert Own(ops, user) == own;
        OtherStepAgrees(c, s, r, op, user, now);
      }
    }
  }

  /** One actor cannot flush another's denials out: other actors and every forget are invisible. */
  lemma NonInterference(c: Config, ops: seq<Op>, user: UserId)
    requires Monotone(ops)
    ensures Outcomes(c, ops, user) == Outcomes(c, Own(ops, user), user)
  {
    OwnRunAgrees(c, ops, user, if ops == [] then 0 else ops[|ops| - 1].now);
  }

  // ----- how much is written

  function RowAt(c: Config, s: State, user: UserId, now: Time): Grant
  {
    Grant(Current(c, s, user, now).windowEnd - c.window, now)
  }

  function RowLog(c: Config, ops: seq<Op>, user: UserId): seq<Grant>
  {
    if ops == [] then []
    else
      var n := |ops| - 1;
      var s, op := Run(c, ops[..n]), ops[n];
      RowLog(c, ops[..n], user)
      + if op.Admit? && op.user == user && Written(c, s, user, op.now)
        then [RowAt(c, s, user, op.now)] else []
  }

  /** The entry of user mirrors the last window of its log; a missing entry means that window is over. */
  ghost predicate Mirrors(c: Config, s: State, log: seq<Grant>, user: UserId, now: Time)
  {
    if log == [] then user !in s
    else
      var last := log[|log| - 1];
      && last.at <= now
      && (user in s ==>
        && s[user].windowEnd == last.open + c.window && s[user].windowEnd > 0
        && s[user].emitted == CountOpened(log, last.open) && s[user].emitted <= c.limit)
      && (user !in s ==> last.open + c.window < now)
  }

  lemma RowExtends(c: Config, s: State, log: seq<Grant>, user: UserId, now: Time)
    requires c.limit > 0
    requires Disciplined(log, c.window, c.limit) && Mirrors(c, s, log, user, now) && Written(c, s, user, now) && now > 0
    ensures var g := RowAt(c, s, user, now);
            && Disciplined(log + [g], c.window, c.limit)
            && CountOpened(log + [g], g.open) == CountOpened(log, g.open) + 1
            && (user !in s || now > s[user].windowEnd ==> CountOpened(log, g.open) == 0)
  {
    var g := RowAt(c, s, user, now);
    if user !in s || now > s[user].windowEnd { LaterOpensAreNew(log, c.window, c.limit, g.open); }
    hide Disciplined, CountOpened;
    DisciplinedSnoc(log, g, c.window, c.limit);
  }

  lemma RowMirrors(c: Config, s: State, log: seq<Grant>, user: UserId, at: Time, now: Time)
    requires c.limit > 0
    requires Disciplined(log, c.window, c.limit) && Mirrors(c, s, log, user, at) && Written(c, s, user, at)
    requires 0 < at <= now
    ensures Mirrors(c, AfterAdmit(c, s, user, at), log + [RowAt(c, s, user, at)], user, now)
  {
    hide Disciplined, CountOpened;
    RowExtends(c, s, log, user, at);
  }

  lemma RunNext(c: Config, ops: seq<Op>)
    requires ops != []
    ensures Run(c, ops) == Step(c, Run(c, ops[..|ops| - 1]), ops[|ops| - 1])
  {
  }

  lemma RowNext(c: Config, ops: seq<Op>, user: UserId)
    requires ops != [] && ops[|ops| - 1].Admit? && ops[|ops| - 1].user == user
    requires Written(c, Run(c, ops[..|ops| - 1]), user, ops[|ops| - 1].now)
    ensures var n := |ops| - 1;
            RowLog(c, ops, user) == RowLog(c, ops[..n], user) + [RowAt(c, Run(c, ops[..n]), user, ops[n].now)]
  {
    hide Run;
  }

  lemma NoRowNext(c: Config, ops: seq<Op>, user: UserId)
    requires ops != []
    requires var op := ops[|ops| - 1];
             !(op.Admit? && op.user == user && Written(c, Run(c, ops[..|ops| - 1]), user, op.now))
    ensures RowLog(c, ops, user) == RowLog(c, ops[..|ops| - 1], user)
  {
    hide Run;
  }

  lemma {:induction false} LogDisciplined(c: Config, ops: seq<Op>, user: UserId, now: Time)
    requires Monotone(ops) && (ops != [] ==> ops[|ops| - 1].now <= now) && c.limit > 0
    requires forall op :: op in ops ==> op.now > 0
    ensures Disciplined(RowLog(c, ops, user), c.window, c.limit)
    ensures Mirrors(c, Run(c, ops), RowLog(c, ops, user), user, now)
  {
    if ops != [] {
      var n := |ops| - 1;
      var op, s, log := ops[n], Run(c, ops[..n]), RowLog(c, ops[..n], user);
      LogDisciplined(c, ops[..n], user, op.now);
      hide Disciplined, CountOpened, Run, RowLog;
      assert Run(c, ops) == Step(c, s, op) by { RunNext(c, ops); }
      if op.Admit? && op.user == user && Written(c, s, user, op.now) {
        RowNext(c, ops, user);
        RowExtends(c, s, log, user, op.now);
        RowMirrors(c, s, log, user, op.now, now);
      } else {
        assert RowLog(c, ops, user) == log by { NoRowNext(c, ops, user); }
      }
    }
  }

  /**
   However forgets and other actors interleave, one actor causes at most limit rows in each of its windows
   and at most 2 * limit - 1 in any closed interval of one window length.
   */
  lemma RowBounds(c: Config, ops: seq<Op>, user: UserId, open: Time, a: Time)
    requires Monotone(ops) && c.limit > 0
    requires forall op :: op in ops ==> op.now > 0
    ensures CountOpened(RowLog(c, ops, user), open) <= c.limit
    ensures CountIn(RowLog(c, ops, user), a, a + c.window) <= 2 * c.limit - 1
  {
    LogDisciplined(c, ops, user, if ops == [] then 0 else ops[|ops| - 1].now);
    WindowBound(RowLog(c, ops, user), c.window, c.limit, open);
    SlidingBound(RowLog(c, ops, user), c.window, c.limit, a);
  }

  /**
   A refusal is written if and only if the limit is positive and the actor has no row yet, or the window of the
   last row is over, or that window holds fewer than limit rows.
   */
  lemma WrittenIff(c: Config, ops: seq<Op>, user: UserId, now: Time)
    requires Monotone(ops) && (ops != [] ==> ops[|ops| - 1].now <= now) && now > 0
    requires forall op :: op in ops ==> op.now > 0
    ensures var log := RowLog(c, ops, user);
            OutcomeOf(c, Run(c, ops), user, now).write <==>
              && c.limit > 0
              && (|| log == [] || log[|log| - 1].open + c.window < now
                  || CountOpened(log, log[|log| - 1].open) < c.limit)
  {
    if c.limit > 0 { LogDisciplined(c, ops, user, now); }
    hide Run, RowLog, Disciplined, CountOpened;
  }

  // ----- the throttle

  class Throttle {
    const config: Config
    var entries: State
    ghost var history: seq<Op>

    ghost predicate Valid()
      reads this
    {
      entries == Run(config, history)
    }

    constructor (limit: int, window: nat)
      ensures Valid() && history == [] && config == Config(limit, window)
    {
      config := Config(limit, window);
      entries := map[];
      history := [];
    }

    ghost method Record(op: Op)
      modifies this`history
      ensures history == old(history) + [op]
      ensures Run(config, history) == Step(config, Run(config, old(history)), op)
    {
      history := history + [op];
      assert history[..|history| - 1] == old(history);
    }

    method AdmitDenial(user: UserId, now: Time) returns (write: bool, suppressed: nat)
      requires Valid()
      modifies this
      ensures Valid() && history == old(history) + [Admit(user, now)]
      ensures Outcome(write, suppressed) == OutcomeOf(config, old(entries), user, now)
      ensures write ==> suppressed == SwallowedSince(Outcomes(config, old(history), user))
    {
      RowReportsSwallowed(config, history, user, now);
      hide SwallowedSince, Outcomes, Run;
      var e := if user in entries then entries[user] else Window(0, 0, 0);
      if now > e.windowEnd {
        e := e.(windowEnd := now + config.window, emitted := 0);
      }
      if e.emitted >= config.limit {
        e := e.(suppressed := e.suppressed + 1);
        write, suppressed := false, 0;
      } else {
        write, suppressed := true, e.suppressed;
        e := e.(emitted := e.emitted + 1, suppressed := 0);
      }
      entries := entries[user := e];
      Record(Admit(user, now));
    }

    /** Drops entries that have nothing left to say, and only those. */
    method ForgetExpired(now: Time)
      requires Valid()
      modifies this
      ensures Valid() && history == old(history) + [Forget(now)]
      ensures forall user :: Outstanding(entries, user) == old(Outstanding(entries, user))
      ensures forall user :: user in old(entries) ==> (user in entries <==> !Spent(old(entries)[user], now))
    {
      var todo := entries.Keys;
      while todo != {}
        invariant history == old(history) && todo <= old(entries).Keys
        invariant entries == map user | user in old(entries)
                               && (user in todo || !Spent(old(entries)[user], now)) :: old(entries)[user]
        decreases todo
      {
        var user :| user in todo;
        if now > entries[user].windowEnd && entries[user].suppressed == 0 {
          entries := entries - {user};
        }
        todo := todo - {user};
      }
      Record(Forget(now));
    }
  }
}
