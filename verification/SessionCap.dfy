/** How far the session limit holds: the count is checked before the first suspension point of a connect and the session
    added after the last, so what counts is how many connects overlap. */
module SessionCap {
  import opened Basics
  import opened Policy
  import opened Confirmation
  import opened ToolService
  import opened ServiceRuns
  import opened ServiceGuarantees

  /** The run leads from `s` to `t`, and never are more than `p` connects past their count check at once. */
  ghost predicate Leads(config: Config, s: State, events: seq<Event>, t: State, p: nat) {
    Run(config, s, events) == Some(t) && AtMostPending(config, s, events, p)
  }

  lemma {:induction false} LeadsOn(config: Config, s: State, a: seq<Event>, t: State, b: seq<Event>, u: State, p: nat)
    requires Leads(config, s, a, t, p) && Leads(config, t, b, u, p)
    ensures Leads(config, s, a + b, u, p)
    decreases |a|
  {
    hide Step, Pending;
    if a == [] {
      assert a + b == b;
    } else {
      assert (a + b)[0] == a[0] && (a + b)[1..] == a[1..] + b;
      LeadsOn(config, Step(config, s, a[0]).value, a[1..], t, b, u, p);
    }
  }

  lemma LeadsOne(config: Config, s: State, e: Event, t: State, p: nat)
    requires Step(config, s, e) == Some(t) && |Pending(s)| <= p && |Pending(t)| <= p
    ensures Leads(config, s, [e], t, p)
  {
    hide Step, Pending;
    assert [e][1..] == [];
    assert Run(config, t, []) == Some(t);
    assert AtMostPending(config, t, [], p);
  }

  /** A connect can be allowed, with a token or without: there is a session factory, the interlock is open, and the mode
      is full control, or it asks for confirmation on a target that is no production hardware and its tokens live. */
  predicate ConnectPossible(config: Config) {
    && config.hasSessionFactory
    && (config.targetClass !in {LabHardware, ProductionHardware} || ConnectTarget in config.allowlist)
    && (config.mode == FullControl
        || (config.mode == ConfirmRequired && config.targetClass != ProductionHardware && config.ttlSeconds >= 0))
  }

  // ----- where no connect can be allowed -----

  /** A connect that gets past its checks shows that connects are possible. */
  lemma StartMeansPossible(config: Config, s: State, e: Event)
    requires StoreGood(config, s) && e.BeginConnect? && Step(config, s, e).Some?
    requires var t := Step(config, s, e).value; e.call in t.calls && t.calls[e.call].Connecting?
    ensures ConnectPossible(config) && |s.sessions| < config.limits.maxSessions
  {
    hide EvaluateCall, Refused, Evaluate, FingerprintOf, WriteAccepted;
    ConnectUse(config, s, e.call, e.request, e.token, e.freshToken);
    ConnectChanges(config, s, e.call, e.request, e.token, e.freshToken);
    NotRefused(config, s, e.call, e.request, e.token, e.freshToken);
    var t := Step(config, s, e).value;
    AllowedExactly(RequestFor(config, ConnectTarget, UseOf(t.calls[e.call]).value.token));
  }

  lemma NotRefused(config: Config, s: State, c: CallId, request: Request, token: Option<string>, freshToken: string)
    requires var t := StepBeginConnect(config, s, c, request, token, freshToken); c in t.calls && t.calls[c].Connecting?
    ensures config.hasSessionFactory
    ensures var t := StepBeginConnect(config, s, c, request, token, freshToken);
      t.calls[c].use.operation == ConnectTarget
  {
    hide EvaluateCall, FingerprintOf;
  }

  /** Where connects are not possible, no run ever has a session. */
  lemma {:induction false} NoSessions(config: Config, s: State, events: seq<Event>)
    requires StoreGood(config, s) && Pending(s) == {} && s.sessions == {} && Run(config, s, events).Some?
    requires !ConnectPossible(config) || config.limits.maxSessions <= 0
    ensures Run(config, s, events).value.sessions == {}
    decreases |events|
  {
    hide Step, StoreGood, Pending, ConnectPossible;
    if events != [] {
      var t := Step(config, s, events[0]).value;
      StepExtends(config, s, events[0]);
      NonePending(config, s, events[0]);
      NoSessions(config, t, events[1..]);
    }
  }

  lemma NonePending(config: Config, s: State, e: Event)
    requires StoreGood(config, s) && Pending(s) == {} && s.sessions == {} && Step(config, s, e).Some?
    requires !ConnectPossible(config) || config.limits.maxSessions <= 0
    ensures Pending(Step(config, s, e).value) == {} && Step(config, s, e).value.sessions == {}
  {
    hide Step, StoreGood, Pending, ConnectPossible;
    var t := Step(config, s, e).value;
    PhaseChanges(config, s, e);
    SessionsChange(config, s, e);
    if e.Tick? || e.RemoveSession? {
      SamePending(s, t);
    } else {
      if t.calls[e.call].Connecting? { StartMeansPossible(config, s, e); }
      PendingAfter(s, e.call, t.calls[e.call]);
      SamePending(s.(calls := s.calls[e.call := t.calls[e.call]]), t);
    }
  }

  // ----- where one can: the bound is reached -----

  /** `n` calls have begun, `p` of them are pending connects, and there are `k` sessions. Tokens issued so far are at
      most `n` long and session ids shorter than `k`, so that there are always fresh ones. */
  ghost predicate Shape(s: State, n: nat, k: nat, p: nat) {
    && (forall c :: c in s.calls ==> c < n)
    && (forall t :: t in s.issued ==> |t| <= n)
    && |Pending(s)| == p
    && |s.sessions| == k && (forall x :: x in s.sessions ==> |x| < k)
    && s.counters == Counters(0, map[])
  }

  const ANY_REQUEST := Request("", map[])

  function Name(k: nat): string {
    seq(k, _ => 'a')
  }

  /** In full control a connect starts at once. */
  lemma StartStep(config: Config, s: State, n: nat, freshToken: string)
    requires ConnectPossible(config) && config.mode == FullControl
    requires n !in s.calls && Fresh(s, freshToken) && |s.sessions| < config.limits.maxSessions
    ensures var use := Use(ConnectTarget, ANY_REQUEST, None, s.clock);
      Step(config, s, BeginConnect(n, ANY_REQUEST, None, freshToken))
      == Some(s.(calls := s.calls[n := Connecting(use)], executed := s.executed + [Execution(n, use)]))
  {
    hide FingerprintOf;
  }

  /** The store and the history after a token for the connect has been issued. */
  function WithToken(config: Config, s: State, n: nat, token: string): State {
    s.(calls := s.calls[n := Ended],
       records := s.records[token :=
         Confirmed(ConnectTarget, FingerprintOf(ANY_REQUEST), s.clock + config.ttlSeconds as real)],
       issued := s.issued[token := Issue(ConnectTarget, FingerprintOf(ANY_REQUEST), s.clock)])
  }

  /** Where confirmation is asked for, the first attempt is refused and hands out a token, ... */
  lemma RefusedStep(config: Config, s: State, n: nat, token: string)
    requires ConnectPossible(config) && config.mode == ConfirmRequired
    requires n !in s.calls && Fresh(s, token) && |s.sessions| < config.limits.maxSessions
    ensures Step(config, s, BeginConnect(n, ANY_REQUEST, None, token)) == Some(WithToken(config, s, n, token))
  {
    hide FingerprintOf;
  }

  function Confirming(s: State, n: nat, token: string): State {
    var use := Use(ConnectTarget, ANY_REQUEST, Some(token), s.clock);
    s.(records := s.records - {token}, consumed := s.consumed[token := n],
       calls := s.calls[n := Connecting(use)], executed := s.executed + [Execution(n, use)])
  }

  /** ... and the second presents it. */
  lemma ConfirmStep(config: Config, s: State, n: nat, token: string, freshToken: string)
    requires ConnectPossible(config) && config.mode == ConfirmRequired && token != ""
    requires n !in s.calls && Fresh(s, freshToken) && |s.sessions| < config.limits.maxSessions
    requires Authorizes(s.records, token, ConnectTarget, ANY_REQUEST, s.clock)
    ensures Step(config, s, BeginConnect(n, ANY_REQUEST, Some(token), freshToken)) == Some(Confirming(s, n, token))
  {
    hide FingerprintOf;
    AllowedExactly(RequestFor(config, ConnectTarget, Some(token)));
  }

  lemma FinishStep(config: Config, s: State, c: CallId, session: string)
    requires InPhase(s, c, false) && session !in s.sessions
    ensures Step(config, s, FinishConnect(c, session))
         == Some(s.(calls := s.calls[c := Ended], sessions := s.sessions + {session}))
  {}

  /** A state that has begun call `n` and has the same sessions. */
  lemma ShapeAfter(s: State, t: State, n: nat, k: nat, p: nat, phase: Phase)
    requires Shape(s, n, k, p) && t.calls == s.calls[n := phase] && t.sessions == s.sessions && t.counters == s.counters
    requires forall x :: x in t.issued ==> x in s.issued || |x| == n + 1
    ensures Shape(t, n + 1, k, if phase.Connecting? then p + 1 else p)
  {
    hide Pending;
    NotPending(s, n);
    PendingAfter(s, n, phase);
    SamePending(s.(calls := s.calls[n := phase]), t);
    if !phase.Connecting? { assert Pending(s) - {n} == Pending(s); }
  }

  lemma ShapeBounds(s: State, n: nat, k: nat, p: nat)
    requires Shape(s, n, k, p)
    ensures n !in s.calls && n + 1 !in s.calls && Fresh(s, Name(n + 1)) && |s.sessions| == k && |Pending(s)| == p
    ensures s.counters == Counters(0, map[])
  {}

  lemma StartFull(config: Config, s: State, n: nat, k: nat, p: nat, bound: nat)
    returns (events: seq<Event>, t: State)
    requires ConnectPossible(config) && Shape(s, n, k, p) && k < config.limits.maxSessions && p < bound
    requires config.mode == FullControl
    ensures Leads(config, s, events, t, bound) && Shape(t, n + 1, k, p + 1)
  {
    hide Shape, Step, Leads, Pending, ConnectPossible;
    ShapeBounds(s, n, k, p);
    var e, use := BeginConnect(n, ANY_REQUEST, None, Name(n + 1)), Use(ConnectTarget, ANY_REQUEST, None, s.clock);
    StartStep(config, s, n, Name(n + 1));
    t := s.(calls := s.calls[n := Connecting(use)], executed := s.executed + [Execution(n, use)]);
    ShapeAfter(s, t, n, k, p, Connecting(use));
    ShapeBounds(t, n + 1, k, p + 1);
    LeadsOne(config, s, e, t, bound);
    events := [e];
  }

  lemma StartConfirmed(config: Config, s: State, n: nat, k: nat, p: nat, bound: nat)
    returns (events: seq<Event>, t: State)
    requires ConnectPossible(config) && Shape(s, n, k, p) && k < config.limits.maxSessions && p < bound
    requires config.mode == ConfirmRequired
    ensures Leads(config, s, events, t, bound) && Shape(t, n + 2, k, p + 1)
  {
    hide Shape, Step, Leads, Pending, FingerprintOf;
    ShapeBounds(s, n, k, p);
    var token := Name(n + 1);
    var first, second := BeginConnect(n, ANY_REQUEST, None, token),
                         BeginConnect(n + 1, ANY_REQUEST, Some(token), Name(n + 2));
    var u := WithToken(config, s, n, token);
    RefusedStep(config, s, n, token);
    ShapeAfter(s, u, n, k, p, Ended);
    ShapeBounds(u, n + 1, k, p);
    LeadsOne(config, s, first, u, bound);
    ConfirmStep(config, u, n + 1, token, Name(n + 2));
    t := Confirming(u, n + 1, token);
    ShapeAfter(u, t, n + 1, k, p, t.calls[n + 1]);
    ShapeBounds(t, n + 2, k, p + 1);
    LeadsOne(config, u, second, t, bound);
    LeadsOn(config, s, [first], u, [second], t, bound);
    events := [first] + [second];
  }

  /** One connect more starts: one event in full control, two where confirmation is asked for. */
  lemma StartOne(config: Config, s: State, n: nat, k: nat, p: nat, bound: nat)
    returns (events: seq<Event>, t: State, m: nat)
    requires ConnectPossible(config) && Shape(s, n, k, p) && k < config.limits.maxSessions && p < bound
    ensures Leads(config, s, events, t, bound) && Shape(t, m, k, p + 1)
  {
    hide Shape, Leads;
    if config.mode == FullControl {
      events, t := StartFull(config, s, n, k, p, bound);
      m := n + 1;
    } else {
      events, t := StartConfirmed(config, s, n, k, p, bound);
      m := n + 2;
    }
  }

  lemma FinishOne(config: Config, s: State, n: nat, k: nat, p: nat) returns (e: Event, t: State)
    requires Shape(s, n, k, p) && p > 0
    ensures Step(config, s, e) == Some(t) && Shape(t, n, k + 1, p - 1) && |Pending(s)| == p && |Pending(t)| == p - 1
  {
    hide Pending, Step;
    assert Pending(s) != {};
    var c :| c in Pending(s);
    NotPending(s, c);
    FinishStep(config, s, c, Name(k));
    e := FinishConnect(c, Name(k));
    t := s.(calls := s.calls[c := Ended], sessions := s.sessions + {Name(k)});
    PendingAfter(s, c, Ended);
    SamePending(s.(calls := s.calls[c := Ended]), t);
  }

  lemma RunNothing(config: Config, s: State, bound: nat, n: nat, k: nat, p: nat)
    requires Shape(s, n, k, p) && p <= bound
    ensures Leads(config, s, [], s, bound)
  {}

  lemma {:induction false} Starts(config: Config, s: State, n: nat, k: nat, p: nat, count: nat, bound: nat)
    returns (events: seq<Event>, t: State, m: nat)
    requires ConnectPossible(config) && Shape(s, n, k, p) && k < config.limits.maxSessions && p + count <= bound
    ensures Leads(config, s, events, t, bound) && Shape(t, m, k, p + count)
    decreases count
  {
    hide Step, Shape, Leads, ConnectPossible;
    if count == 0 {
      RunNothing(config, s, bound, n, k, p);
      return [], s, n;
    }
    var a, u, l := StartOne(config, s, n, k, p, bound);
    var rest;
    rest, t, m := Starts(config, u, l, k, p + 1, count - 1, bound);
    LeadsOn(config, s, a, u, rest, t, bound);
    events := a + rest;
  }

  lemma {:induction false} Finishes(config: Config, s: State, n: nat, k: nat, p: nat, bound: nat)
    returns (events: seq<Event>, t: State)
    requires Shape(s, n, k, p) && p <= bound
    ensures Leads(config, s, events, t, bound) && Shape(t, n, k + p, 0)
    decreases p
  {
    hide Step, Shape, Leads;
    if p == 0 {
      RunNothing(config, s, bound, n, k, p);
      return [], s;
    }
    var e, u := FinishOne(config, s, n, k, p);
    LeadsOne(config, s, e, u, bound);
    var rest;
    rest, t := Finishes(config, u, n, k + 1, p - 1, bound);
    LeadsOn(config, s, [e], u, rest, t, bound);
    events := [e] + rest;
  }

  /** `count` connects that overlap completely. */
  lemma Overlap(config: Config, s: State, n: nat, k: nat, count: nat, bound: nat)
    returns (events: seq<Event>, t: State, m: nat)
    requires ConnectPossible(config) && Shape(s, n, k, 0) && k < config.limits.maxSessions && count <= bound
    ensures Leads(config, s, events, t, bound) && Shape(t, m, k + count, 0)
  {
    hide Shape, Leads, ConnectPossible;
    var a, u;
    a, u, m := Starts(config, s, n, k, 0, count, bound);
    var b;
    b, t := Finishes(config, u, m, k, count, bound);
    LeadsOn(config, s, a, u, b, t, bound);
    events := a + b;
  }

  /** `k` connects one after the other. */
  lemma {:induction false} OneByOne(config: Config, k: nat, bound: nat)
    returns (events: seq<Event>, t: State, m: nat)
    requires ConnectPossible(config) && k <= config.limits.maxSessions && 1 <= bound
    ensures Leads(config, INITIAL, events, t, bound) && Shape(t, m, k, 0)
  {
    if k == 0 {
      assert Pending(INITIAL) == {};
      return [], INITIAL, 0;
    }
    hide Shape, Leads, ConnectPossible;
    var a, u, n := OneByOne(config, k - 1, bound);
    var b;
    b, t, m := Overlap(config, u, n, k - 1, 1, bound);
    LeadsOn(config, INITIAL, a, u, b, t, bound);
    events := a + b;
  }

  /** Wherever a connect can be allowed at all, the bound max_sessions - 1 + p is reached. */
  lemma CapReached(config: Config, p: nat) returns (events: seq<Event>, t: State)
    requires ConnectPossible(config) && config.limits.maxSessions >= 1 && p >= 1
    ensures Leads(config, INITIAL, events, t, p) && |t.sessions| == config.limits.maxSessions - 1 + p
  {
    hide Leads, ConnectPossible;
    var m := config.limits.maxSessions - 1;
    var a, u, n := OneByOne(config, m, p);
    var b, l;
    b, t, l := Overlap(config, u, n, m, p, p);
    LeadsOn(config, INITIAL, a, u, b, t, p);
    events := a + b;
  }

  ghost predicate EndsWithSession(config: Config, events: seq<Event>, s: State) {
    Run(config, INITIAL, events) == Some(s) && s.sessions != {}
  }

  /** Some run has a session exactly where connects are possible and the limit allows one. */
  lemma SomeSessionExactly(config: Config)
    ensures (exists events, s :: EndsWithSession(config, events, s))
      <==> ConnectPossible(config) && config.limits.maxSessions >= 1
  {
    hide ConnectPossible, Step;
    assert Pending(INITIAL) == {};
    if ConnectPossible(config) && config.limits.maxSessions >= 1 {
      var events, t := CapReached(config, 1);
      assert EndsWithSession(config, events, t);
    } else {
      forall events, s | EndsWithSession(config, events, s) ensures false {
        NoSessions(config, INITIAL, events);
      }
    }
  }

  /** The number of sessions the limit allows. */
  function SessionLimit(config: Config): nat {
    if config.limits.maxSessions > 0 then config.limits.maxSessions else 0
  }

  /** For every configuration: the session limit holds in all runs with at most `p` overlapping connects if and only if
      connects do not overlap, or none can ever be allowed, or the limit allows no session at all. */
  lemma SessionLimitExactly(config: Config, p: nat)
    ensures (forall events, s :: Leads(config, INITIAL, events, s, p) ==> |s.sessions| <= SessionLimit(config))
      <==> p <= 1 || !ConnectPossible(config) || config.limits.maxSessions <= 0
  {
    hide ConnectPossible, Step;
    assert Pending(INITIAL) == {};
    if p <= 1 || !ConnectPossible(config) || config.limits.maxSessions <= 0 {
      forall events, s | Leads(config, INITIAL, events, s, p) ensures |s.sessions| <= SessionLimit(config) {
        if p <= 1 { CapHolds(config, INITIAL, events, p); } else { NoSessions(config, INITIAL, events); }
      }
    } else {
      var events, t := CapReached(config, p);
    }
  }

  // ----- two calls on one session -----

  /** Two calls are executing on the same session. */
  ghost predicate Together(s: State, c: CallId, d: CallId) {
    && c != d && c in RunningCalls(s) && d in RunningCalls(s)
    && s.calls[c].use.request.sessionId == s.calls[d].use.request.sessionId
  }

  ghost predicate EndsTogether(config: Config, events: seq<Event>, s: State, c: CallId, d: CallId) {
    Run(config, INITIAL, events) == Some(s) && Together(s, c, d)
  }

  function Read(id: string, at: real): Use {
    Use(ReadRegisters, Request(id, map[]), None, at)
  }

  /** Reading the registers of a listed session is always allowed. */
  lemma ReadStep(config: Config, s: State, c: CallId, id: string, freshToken: string)
    requires c !in s.calls && Fresh(s, freshToken) && id in s.sessions
    ensures Step(config, s, Begin(c, ReadRegisters, Request(id, map[]), None, freshToken))
         == Some(s.(calls := s.calls[c := Authorized(Read(id, s.clock))]))
  {
    hide FingerprintOf;
  }

  lemma SlotStep(config: Config, s: State, c: CallId, use: Use, n: int)
    requires c in s.calls && s.calls[c] == Authorized(use)
    requires s.counters.active == n < config.limits.maxConcurrentToolCalls
    requires CountOf(s.counters.perSession, use.request.sessionId) == n < config.limits.maxSessionOperations
    ensures Step(config, s, TakeSlot(c))
      == Some(s.(counters := Counters(n + 1, s.counters.perSession[use.request.sessionId := n + 1]),
                 calls := s.calls[c := Running(use)], executed := s.executed + [Execution(c, use)]))
  {}

  lemma RunMore(config: Config, s: State, events: seq<Event>, t: State, e: Event, u: State)
    requires Run(config, s, events) == Some(t) && Step(config, t, e) == Some(u)
    ensures Run(config, s, events + [e]) == Some(u)
    decreases |events|
  {
    hide Step;
    if events == [] {
      assert events + [e] == [e] && [e][1..] == [];
    } else {
      assert (events + [e])[0] == events[0] && (events + [e])[1..] == events[1..] + [e];
      RunMore(config, Step(config, s, events[0]).value, events[1..], t, e, u);
    }
  }

  /** With room for two, two reads of one session run together. */
  lemma TwoReads(config: Config, before: seq<Event>, s: State, n: nat, id: string)
    returns (events: seq<Event>, t: State)
    requires Run(config, INITIAL, before) == Some(s) && Shape(s, n, 1, 0) && id in s.sessions
    requires config.limits.maxConcurrentToolCalls >= 2 && config.limits.maxSessionOperations >= 2
    ensures EndsTogether(config, events, t, n, n + 1)
  {
    hide Run, Step, Fresh;
    ShapeBounds(s, n, 1, 0);
    var use := Read(id, s.clock);
    ReadStep(config, s, n, id, Name(n + 1));
    var s1 := s.(calls := s.calls[n := Authorized(use)]);
    SameFresh(s, s1, Name(n + 1));
    ReadStep(config, s1, n + 1, id, Name(n + 1));
    var s2 := s1.(calls := s1.calls[n + 1 := Authorized(use)]);
    SlotStep(config, s2, n, use, 0);
    var s3 := s2.(counters := Counters(1, s2.counters.perSession[id := 1]), calls := s2.calls[n := Running(use)],
                  executed := s2.executed + [Execution(n, use)]);
    SlotStep(config, s3, n + 1, use, 1);
    t := s3.(counters := Counters(2, s3.counters.perSession[id := 2]), calls := s3.calls[n + 1 := Running(use)],
             executed := s3.executed + [Execution(n + 1, use)]);
    var first := Begin(n, ReadRegisters, Request(id, map[]), None, Name(n + 1));
    var second := Begin(n + 1, ReadRegisters, Request(id, map[]), None, Name(n + 1));
    events := before + [first] + [second] + [TakeSlot(n)] + [TakeSlot(n + 1)];
    RunMore(config, INITIAL, before, s, first, s1);
    RunMore(config, INITIAL, before + [first], s1, second, s2);
    RunMore(config, INITIAL, before + [first] + [second], s2, TakeSlot(n), s3);
    RunMore(config, INITIAL, before + [first] + [second] + [TakeSlot(n)], s3, TakeSlot(n + 1), t);
  }

  lemma SameFresh(s: State, t: State, token: string)
    requires Fresh(s, token) && t.issued == s.issued
    ensures Fresh(t, token)
  {}

  /** A call runs only on a session that is or was listed, so without sessions nothing runs. */
  lemma {:induction false} NothingRuns(config: Config, s: State, events: seq<Event>)
    requires StoreGood(config, s) && Pending(s) == {} && s.sessions == {} && Run(config, s, events).Some?
    requires forall c :: c in s.calls ==> s.calls[c].Ended?
    requires !ConnectPossible(config) || config.limits.maxSessions <= 0
    ensures RunningCalls(Run(config, s, events).value) == {}
    decreases |events|
  {
    hide Step, StoreGood, Pending, ConnectPossible;
    if events != [] {
      var t := Step(config, s, events[0]).value;
      StepExtends(config, s, events[0]);
      NonePending(config, s, events[0]);
      AllEnded(config, s, events[0]);
      NothingRuns(config, t, events[1..]);
    }
  }

  lemma AllEnded(config: Config, s: State, e: Event)
    requires s.sessions == {} && Step(config, s, e).Some? && Pending(Step(config, s, e).value) == {}
    requires forall c :: c in s.calls ==> s.calls[c].Ended?
    ensures var t := Step(config, s, e).value; forall c :: c in t.calls ==> t.calls[c].Ended?
  {
    hide EvaluateCall, Presented, Refused, WriteAccepted, Reserve, Release, IsSessionTool;
    var t := Step(config, s, e).value;
    if e.Begin? {
      BeginChanges(config, s, e.call, e.operation, e.request, e.token, e.freshToken);
      NotListed(config, s, e.call, e.operation, e.request, e.token, e.freshToken);
    } else if e.BeginConnect? {
      ConnectChanges(config, s, e.call, e.request, e.token, e.freshToken);
      NotPending(t, e.call);
    }
  }

  lemma NotListed(config: Config, s: State, c: CallId, operation: Operation, request: Request, token: Option<string>,
                  freshToken: string)
    requires s.sessions == {}
    ensures var t := StepBegin(config, s, c, operation, request, token, freshToken); c in t.calls && t.calls[c].Ended?
  {
    hide EvaluateCall, WriteAccepted, FingerprintOf;
  }

  /** For every configuration: no run has two calls executing on the same session if and only if one of the two limits
      allows only one, or no session can ever be listed. */
  lemma OnePerSessionExactly(config: Config)
    ensures (forall events, s, c, d :: !EndsTogether(config, events, s, c, d))
      <==> (config.limits.maxSessionOperations <= 1 || config.limits.maxConcurrentToolCalls <= 1
            || !ConnectPossible(config) || config.limits.maxSessions <= 0)
  {
    hide ConnectPossible, Step, Shape;
    if config.limits.maxSessionOperations <= 1 || config.limits.maxConcurrentToolCalls <= 1 {
      forall events, s, c, d | EndsTogether(config, events, s, c, d) ensures false {
        OnePerSession(config, events, s, c, d);
      }
    } else if !ConnectPossible(config) || config.limits.maxSessions <= 0 {
      assert Pending(INITIAL) == {};
      forall events, s, c, d | EndsTogether(config, events, s, c, d) ensures false {
        NothingRuns(config, INITIAL, events);
      }
    } else {
      var before, s, n := OneByOne(config, 1, 1);
      ShapeBounds(s, n, 1, 0);
      assert s.sessions != {};
      var id :| id in s.sessions;
      var events, t := TwoReads(config, before, s, n, id);
      assert EndsTogether(config, events, t, n, n + 1);
    }
  }
}
