/** Leases over whole runs, with a clock that never goes back and fresh lock ids. */
module LeaseRuns {
  import opened Basics
  import opened Inventory

  /** A lease that was granted; `ended` is when it was released. */
  datatype Grant = Grant(lock: TargetLock, at: real, ended: Option<real>)

  datatype State = State(clock: real, targets: set<string>, locks: Locks, grants: seq<Grant>)

  function Initial(targets: set<string>): State {
    State(0.0, targets, map[], [])
  }

  datatype Event =
    | Add(targetId: string)
    | Acquire(targetId: string, owner: string, ttlSeconds: int, checkedAt: real, grantedAt: real, freshId: string)
    | Release(lockId: string, at: real)

  predicate Fresh(s: State, lockId: string) {
    forall i :: 0 <= i < |s.grants| ==> s.grants[i].lock.lockId != lockId
  }

  /** The grants after the release of a lock. */
  function EndGrant(grants: seq<Grant>, lockId: string, at: real): seq<Grant> {
    seq(|grants|, i requires 0 <= i < |grants| =>
      if grants[i].lock.lockId == lockId then grants[i].(ended := Some(at)) else grants[i])
  }

  /** The state after an event, if the event can happen; an acquire or release that raises changes only the clock. */
  ghost function Step(s: State, e: Event): Option<State> {
    match e
    case Add(t) => Some(s.(targets := s.targets + {t}))
    case Acquire(t, owner, ttl, checkedAt, grantedAt, id) =>
      if !(s.clock <= checkedAt <= grantedAt && Fresh(s, id)) then None
      else if !Free(s.targets, s.locks, t, checkedAt) then Some(s.(clock := grantedAt))
      else
        var lock := TargetLock(id, t, owner, grantedAt + ttl as real);
        Some(State(grantedAt, s.targets, s.locks[t := lock], s.grants + [Grant(lock, grantedAt, None)]))
    case Release(id, at) =>
      if s.clock > at then None
      else if LockedWith(s.locks, id) == {} then Some(s.(clock := at))
      else
        var t :| t in LockedWith(s.locks, id);
        Some(State(at, s.targets, s.locks - {t}, EndGrant(s.grants, id, at)))
  }

  ghost function Run(s: State, events: seq<Event>): Option<State>
    decreases |events|
  {
    if events == [] then Some(s) else
    match Step(s, events[0])
    case None => None
    case Some(t) => Run(t, events[1..])
  }

  // ----- what every reachable state satisfies -----

  /** No grant for the same target comes after grant `i`. */
  ghost predicate Last(s: State, i: nat)
    requires i < |s.grants|
  {
    forall j :: i < j < |s.grants| ==> s.grants[j].lock.targetId != s.grants[i].lock.targetId
  }

  /** Grant `i` is the one stored for its target. */
  ghost predicate Current(s: State, i: nat)
    requires i < |s.grants|
  {
    s.grants[i].ended == None && Last(s, i)
  }

  /** The later of two grants for a target comes at or after the expiry or the release of the earlier. */
  ghost predicate Follows(a: Grant, b: Grant) {
    a.lock.targetId == b.lock.targetId ==>
      a.lock.expiresAt <= b.at || (a.ended.Some? && a.ended.value <= b.at)
  }

  ghost predicate GrantsOrdered(s: State) {
    && (forall i, j :: 0 <= i < j < |s.grants| ==>
          Follows(s.grants[i], s.grants[j]) && s.grants[i].lock.lockId != s.grants[j].lock.lockId)
    && (forall i :: 0 <= i < |s.grants| ==>
          s.grants[i].at <= s.clock && (s.grants[i].ended.Some? ==> s.grants[i].ended.value <= s.clock))
  }

  /** The locks stored are exactly the current grants, each under its own target. */
  ghost predicate LocksAreCurrent(s: State) {
    && (forall t :: t in s.locks ==>
          && s.locks[t].targetId == t
          && exists i: nat :: i < |s.grants| && Current(s, i) && s.grants[i].lock == s.locks[t])
    && (forall i: nat :: i < |s.grants| && Current(s, i) ==>
          s.grants[i].lock.targetId in s.locks && s.locks[s.grants[i].lock.targetId] == s.grants[i].lock)
  }

  ghost predicate Inv(s: State) {
    GrantsOrdered(s) && LocksAreCurrent(s)
  }

  /** Every grant for the target has expired or been released. */
  ghost predicate AllOver(s: State, t: string, now: real) {
    forall i: nat :: i < |s.grants| && s.grants[i].lock.targetId == t ==>
      s.grants[i].ended.Some? || s.grants[i].lock.expiresAt <= now
  }

  lemma {:induction false} LastGrant(s: State, t: string, n: nat) returns (i: nat)
    requires n <= |s.grants| && exists j :: 0 <= j < n && s.grants[j].lock.targetId == t
    requires forall j :: n <= j < |s.grants| ==> s.grants[j].lock.targetId != t
    ensures i < |s.grants| && s.grants[i].lock.targetId == t && Last(s, i)
    decreases n
  {
    if s.grants[n - 1].lock.targetId == t { i := n - 1; } else { i := LastGrant(s, t, n - 1); }
  }

  /** A target is free exactly when it is known and all its leases are over. */
  lemma FreeExactly(s: State, t: string, now: real)
    requires Inv(s) && s.clock <= now
    ensures Free(s.targets, s.locks, t, now) <==> t in s.targets && AllOver(s, t, now)
  {
    if t in s.locks {
      var i: nat :| i < |s.grants| && Current(s, i) && s.grants[i].lock == s.locks[t];
      if s.locks[t].Expired(now) {
        forall j: nat | j < |s.grants| && s.grants[j].lock.targetId == t
          ensures s.grants[j].ended.Some? || s.grants[j].lock.expiresAt <= now
        {
          if j < i { assert Follows(s.grants[j], s.grants[i]); }
        }
      }
    } else {
      forall j: nat | j < |s.grants| && s.grants[j].lock.targetId == t
        ensures s.grants[j].ended.Some? || s.grants[j].lock.expiresAt <= now
      {
        var i := LastGrant(s, t, |s.grants|);
        assert !Current(s, i);
        if j < i { assert Follows(s.grants[j], s.grants[i]); }
      }
    }
  }

  /** A lock id opens a stored lock exactly when its grant is current, and then only that one. */
  lemma LockedWithExactly(s: State, i: nat)
    requires Inv(s) && i < |s.grants|
    ensures LockedWith(s.locks, s.grants[i].lock.lockId)
      == if Current(s, i) then {s.grants[i].lock.targetId} else {}
  {
    var id := s.grants[i].lock.lockId;
    forall t | t in LockedWith(s.locks, id) ensures Current(s, i) && t == s.grants[i].lock.targetId {
      var j: nat :| j < |s.grants| && Current(s, j) && s.grants[j].lock == s.locks[t];
      assert j == i;
    }
  }

  lemma CurrentAfterGrant(s: State, t: State, g: Grant, i: nat)
    requires t.grants == s.grants + [g] && i < |s.grants|
    ensures Current(t, i) <==> Current(s, i) && s.grants[i].lock.targetId != g.lock.targetId
  {
    if Last(t, i) {
      forall j | i < j < |s.grants| ensures s.grants[j].lock.targetId != s.grants[i].lock.targetId {
        assert t.grants[j] == s.grants[j];
      }
      assert t.grants[|s.grants|] == g;
    }
  }

  /** A new current grant; the earlier ones of its target are no longer the last. */
  lemma LocksAfterGrant(s: State, t: State, g: Grant)
    requires LocksAreCurrent(s) && t.grants == s.grants + [g] && g.ended == None
    requires t.locks == s.locks[g.lock.targetId := g.lock]
    ensures LocksAreCurrent(t)
  {
    hide Current;
    forall i: nat | i < |s.grants|
      ensures t.grants[i] == s.grants[i]
      ensures Current(t, i) <==> Current(s, i) && s.grants[i].lock.targetId != g.lock.targetId
    {
      CurrentAfterGrant(s, t, g, i);
    }
    assert Current(t, |s.grants|) by { NewestIsCurrent(t, |s.grants|); }
    forall u | u in t.locks
      ensures exists i: nat :: i < |t.grants| && Current(t, i) && t.grants[i].lock == t.locks[u]
    {
      if u == g.lock.targetId {
        assert t.grants[|s.grants|].lock == t.locks[u];
      } else {
        var i: nat :| i < |s.grants| && Current(s, i) && s.grants[i].lock == s.locks[u];
        assert Current(t, i) && t.grants[i].lock == t.locks[u];
      }
    }
  }

  lemma NewestIsCurrent(s: State, i: nat)
    requires i == |s.grants| - 1 && s.grants[i].ended == None
    ensures Current(s, i)
  {}

  lemma AcquireKeepsInv(s: State, e: Event)
    requires Inv(s) && e.Acquire? && Step(s, e).Some? && Free(s.targets, s.locks, e.targetId, e.checkedAt)
    ensures Inv(Step(s, e).value)
  {
    hide Last;
    var t, n := Step(s, e).value, |s.grants|;
    FreeExactly(s, e.targetId, e.checkedAt);
    LocksAfterGrant(s, t, t.grants[n]);
    hide LocksAreCurrent;
    forall i: nat | i < n ensures Follows(t.grants[i], t.grants[n]) {
      assert t.grants[i] == s.grants[i];
    }
  }

  /** The grant with a stored id. */
  lemma GrantOf(s: State, id: string) returns (i: nat)
    requires Inv(s) && LockedWith(s.locks, id) != {}
    ensures i < |s.grants| && Current(s, i) && s.grants[i].lock.lockId == id
    ensures LockedWith(s.locks, id) == {s.grants[i].lock.targetId}
  {
    var t :| t in LockedWith(s.locks, id);
    i :| i < |s.grants| && Current(s, i) && s.grants[i].lock == s.locks[t];
    LockedWithExactly(s, i);
  }

  /** A release that succeeds ends exactly the grant with the id. */
  lemma ReleaseStep(s: State, id: string, at: real, i: nat)
    requires Inv(s) && s.clock <= at && i < |s.grants| && Current(s, i) && s.grants[i].lock.lockId == id
    ensures Step(s, Release(id, at))
      == Some(State(at, s.targets, s.locks - {s.grants[i].lock.targetId},
                    s.grants[i := s.grants[i].(ended := Some(at))]))
  {
    LockedWithExactly(s, i);
    assert EndGrant(s.grants, id, at) == s.grants[i := s.grants[i].(ended := Some(at))] by {
      forall j | 0 <= j < |s.grants| && j != i ensures s.grants[j].lock.lockId != id {}
    }
  }

  lemma CurrentAfterEnd(s: State, t: State, i: nat, at: real, j: nat)
    requires i < |s.grants| && j < |s.grants| && t.grants == s.grants[i := s.grants[i].(ended := Some(at))]
    ensures Current(t, j) <==> Current(s, j) && j != i
  {
    assert forall k: nat :: k < |s.grants| ==> t.grants[k].lock == s.grants[k].lock;
    assert forall k: nat :: k < |s.grants| ==> s.grants[k].lock == t.grants[k].lock;
  }

  lemma LocksAfterEnd(s: State, t: State, i: nat, at: real)
    requires LocksAreCurrent(s) && i < |s.grants| && Current(s, i)
    requires t.grants == s.grants[i := s.grants[i].(ended := Some(at))]
    requires t.locks == s.locks - {s.grants[i].lock.targetId}
    ensures LocksAreCurrent(t)
  {
    hide Current;
    forall j: nat | j < |s.grants|
      ensures t.grants[j].lock == s.grants[j].lock && (Current(t, j) <==> Current(s, j) && j != i)
    {
      CurrentAfterEnd(s, t, i, at, j);
    }
    forall u | u in t.locks
      ensures exists j: nat :: j < |t.grants| && Current(t, j) && t.grants[j].lock == t.locks[u]
    {
      var j: nat :| j < |s.grants| && Current(s, j) && s.grants[j].lock == s.locks[u];
      assert Current(t, j) && t.grants[j].lock == t.locks[u];
    }
    forall j: nat | j < |t.grants| && Current(t, j)
      ensures t.grants[j].lock.targetId in t.locks && t.locks[t.grants[j].lock.targetId] == t.grants[j].lock
    {
      OneCurrent(s, i, j);
    }
  }

  lemma OneCurrent(s: State, i: nat, j: nat)
    requires i < |s.grants| && j < |s.grants| && i != j && Current(s, i) && Current(s, j)
    ensures s.grants[i].lock.targetId != s.grants[j].lock.targetId
  {}

  lemma OrderedAfterEnd(s: State, t: State, i: nat, at: real)
    requires GrantsOrdered(s) && i < |s.grants| && Last(s, i) && t.clock == at >= s.clock
    requires t.grants == s.grants[i := s.grants[i].(ended := Some(at))]
    ensures GrantsOrdered(t)
  {
    forall j, k | 0 <= j < k < |t.grants|
      ensures Follows(t.grants[j], t.grants[k]) && t.grants[j].lock.lockId != t.grants[k].lock.lockId
    {
      assert Follows(s.grants[j], s.grants[k]) && s.grants[j].lock.lockId != s.grants[k].lock.lockId;
      assert t.grants[k].lock == s.grants[k].lock && t.grants[j].lock == s.grants[j].lock;
    }
  }

  lemma ReleaseKeepsInv(s: State, id: string, at: real)
    requires Inv(s) && s.clock <= at && LockedWith(s.locks, id) != {}
    ensures Inv(Step(s, Release(id, at)).value)
  {
    hide Step, GrantsOrdered, LocksAreCurrent, Last;
    var i := GrantOf(s, id);
    ReleaseStep(s, id, at, i);
    var t := Step(s, Release(id, at)).value;
    OrderedAfterEnd(s, t, i, at);
    LocksAfterEnd(s, t, i, at);
  }

  /** An event that touches neither locks nor grants. */
  lemma QuietKeepsInv(s: State, t: State)
    requires Inv(s) && t.locks == s.locks && t.grants == s.grants && s.clock <= t.clock
    ensures Inv(t)
  {
    assert forall i: nat :: i < |s.grants| ==> Current(s, i) == Current(t, i);
  }

  lemma StepKeepsInv(s: State, e: Event)
    requires Inv(s) && Step(s, e).Some?
    ensures Inv(Step(s, e).value)
  {
    hide Inv;
    match e
    case Acquire(t, _, _, checkedAt, _, _) =>
      if Free(s.targets, s.locks, t, checkedAt) { AcquireKeepsInv(s, e); } else { QuietKeepsInv(s, Step(s, e).value); }
    case Release(id, at) =>
      if LockedWith(s.locks, id) != {} { ReleaseKeepsInv(s, id, at); } else { QuietKeepsInv(s, Step(s, e).value); }
    case Add(_) => QuietKeepsInv(s, Step(s, e).value);
  }

  lemma {:induction false} RunKeepsInv(s: State, events: seq<Event>)
    requires Inv(s) && Run(s, events).Some?
    ensures Inv(Run(s, events).value)
    decreases |events|
  {
    hide Inv, Step;
    if events != [] {
      StepKeepsInv(s, events[0]);
      RunKeepsInv(Step(s, events[0]).value, events[1..]);
    }
  }

  // ----- the guarantees, for every run -----

  /** The lease is in force: granted, not expired, not released. */
  predicate InForce(g: Grant, now: real) {
    g.at <= now < g.lock.expiresAt && (g.ended.Some? ==> now < g.ended.value)
  }

  /** At no moment are two leases for one target in force. */
  lemma LeasesExclusive(targets: set<string>, events: seq<Event>, s: State, i: nat, j: nat, now: real)
    requires Run(Initial(targets), events) == Some(s) && i < |s.grants| && j < |s.grants|
    requires s.grants[i].lock.targetId == s.grants[j].lock.targetId
    requires InForce(s.grants[i], now) && InForce(s.grants[j], now)
    ensures i == j
  {
    hide Step;
    RunKeepsInv(Initial(targets), events);
    assert i < j ==> Follows(s.grants[i], s.grants[j]);
    assert j < i ==> Follows(s.grants[j], s.grants[i]);
  }

  /** Each lock is stored under its own target, and a request is granted exactly when the target is known and every
      lease ever granted for it has expired or been released. */
  lemma GrantedExactly(targets: set<string>, events: seq<Event>, s: State, t: string, now: real)
    requires Run(Initial(targets), events) == Some(s) && s.clock <= now
    ensures forall u :: u in s.locks ==> s.locks[u].targetId == u
    ensures Free(s.targets, s.locks, t, now) <==> t in s.targets && AllOver(s, t, now)
  {
    hide Step;
    RunKeepsInv(Initial(targets), events);
    FreeExactly(s, t, now);
  }

  predicate Added(events: seq<Event>, t: string) {
    exists i :: 0 <= i < |events| && events[i] == Add(t)
  }

  /** The known targets are those there were and those added. */
  lemma {:induction false} KnownExactly(s: State, events: seq<Event>, t: string)
    requires Run(s, events).Some?
    ensures t in Run(s, events).value.targets <==> t in s.targets || Added(events, t)
    decreases |events|
  {
    hide Free, EndGrant;
    if events != [] {
      KnownExactly(Step(s, events[0]).value, events[1..], t);
      if Added(events[1..], t) {
        var i :| 0 <= i < |events[1..]| && events[1..][i] == Add(t);
        assert events[i + 1] == Add(t);
      }
      if Added(events, t) && events[0] != Add(t) {
        var i :| 0 <= i < |events| && events[i] == Add(t);
        assert events[1..][i - 1] == Add(t);
      }
    }
  }

  /** What a request does in every run: it is granted exactly when the target is known and every earlier lease of it
      is over at the moment of the check, and then the new lease begins and ends where it should; a refusal changes
      only the clock. */
  lemma AcquiredExactly(targets: set<string>, events: seq<Event>, s: State, e: Event, t: State)
    requires Run(Initial(targets), events) == Some(s) && e.Acquire? && Step(s, e) == Some(t)
    ensures
      var lock := TargetLock(e.freshId, e.targetId, e.owner, e.grantedAt + e.ttlSeconds as real);
      if e.targetId in s.targets && AllOver(s, e.targetId, e.checkedAt) then
        && t.locks == s.locks[e.targetId := lock]
        && t.grants == s.grants + [Grant(lock, e.grantedAt, None)]
        && t.clock == e.grantedAt && t.targets == s.targets
      else
        t == s.(clock := e.grantedAt)
  {
    hide AllOver, Run;
    RunKeepsInv(Initial(targets), events);
    FreeExactly(s, e.targetId, e.checkedAt);
  }

  /** Releasing a lock succeeds exactly when it has not been released and its target has not been granted again; it then
      frees that target only. Otherwise it raises and every lock stays, the new owner's among them. */
  lemma ReleasedExactly(targets: set<string>, events: seq<Event>, s: State, i: nat, at: real)
    requires Run(Initial(targets), events) == Some(s) && i < |s.grants| && s.clock <= at
    ensures var t := Step(s, Release(s.grants[i].lock.lockId, at));
      && t.Some?
      && (if s.grants[i].ended == None && Last(s, i)
          then t.value.locks == s.locks - {s.grants[i].lock.targetId} && t.value.grants[i].ended == Some(at)
               && s.grants[i].lock.targetId in s.locks
          else t.value == s.(clock := at))
  {
    RunKeepsInv(Initial(targets), events);
    hide Run, GrantsOrdered;
    LockedWithExactly(s, i);
    if Current(s, i) { ReleaseStep(s, s.grants[i].lock.lockId, at, i); }
  }
}
