/**
  Session keys are created once for all concurrent callers
  (ts-sdks/packages/sui-stack-messaging/src/encryption/session-key-manager.ts:52-67).  A call runs up
  to its first await, creations settle at any time and either way, and calls resume one at a time.
 */
module SessionKeys {
  import opened Wrappers

  datatype SessionKey = SessionKey(serial: nat, creationTimeMs: int, ttlMin: int)

  datatype Creation = Pending | Created(key: SessionKey) | Failed

  /** A call waits for a creation as its owner or as one that joined it, or it is over. */
  datatype Call =
    | Owner(creation: nat)
    | Joined(creation: nat)
    | Cached(key: SessionKey)
    | Done(creation: nat, result: Creation)

  datatype Manager = Manager(
    sessionKey: Option<SessionKey>,
    refreshPromise: Option<nat>,  // index of the creation it stands for
    creations: seq<Creation>,
    calls: map<nat, Call>)

  datatype Step =
    | GetSessionKey(caller: nat, now: int, expired: bool)
    | Settle(creation: nat, result: Creation)
    | Resume(caller: nat)

  const START := Manager(None, None, [], map[])

  function NeedsRefresh(key: SessionKey, now: int, expired: bool, refreshBufferMs: int): bool {
    expired || now + refreshBufferMs >= key.creationTimeMs + key.ttlMin * 60_000
  }

  predicate HasFreshKey(m: Manager, now: int, expired: bool, refreshBufferMs: int) {
    m.sessionKey.Some? && !NeedsRefresh(m.sessionKey.value, now, expired, refreshBufferMs)
  }

  predicate Enabled(m: Manager, s: Step) {
    match s
    case GetSessionKey(caller, _, _) => caller !in m.calls
    case Settle(creation, result) => creation < |m.creations| && m.creations[creation].Pending? && !result.Pending?
    case Resume(caller) =>
      && caller in m.calls && (m.calls[caller].Owner? || m.calls[caller].Joined?)
      && m.calls[caller].creation < |m.creations| && !m.creations[m.calls[caller].creation].Pending?
  }

  /** The owner's continuation stores a created key, and clears the promise on both outcomes. */
  function Resumed(m: Manager, caller: nat): Manager
    requires Enabled(m, Resume(caller))
  {
    var id := m.calls[caller].creation;
    var calls := m.calls[caller := Done(id, m.creations[id])];
    if m.calls[caller].Joined? then m.(calls := calls)
    else
      m.(sessionKey := if m.creations[id].Created? then Some(m.creations[id].key) else m.sessionKey,
         refreshPromise := None, calls := calls)
  }

  function Called(m: Manager, caller: nat, now: int, expired: bool, refreshBufferMs: int): Manager {
    if HasFreshKey(m, now, expired, refreshBufferMs) then m.(calls := m.calls[caller := Cached(m.sessionKey.value)])
    else if m.refreshPromise.Some? then m.(calls := m.calls[caller := Joined(m.refreshPromise.value)])
    else
      m.(refreshPromise := Some(|m.creations|), creations := m.creations + [Pending],
         calls := m.calls[caller := Owner(|m.creations|)])
  }

  function Apply(m: Manager, s: Step, refreshBufferMs: int): Manager
    requires Enabled(m, s)
  {
    match s
    case GetSessionKey(caller, now, expired) => Called(m, caller, now, expired, refreshBufferMs)
    case Settle(creation, result) => m.(creations := m.creations[creation := result])
    case Resume(caller) => Resumed(m, caller)
  }

  ghost predicate IsRun(states: seq<Manager>, steps: seq<Step>, refreshBufferMs: int) {
    && |states| == |steps| + 1 && states[0] == START
    && forall i | 0 <= i < |steps| :: Enabled(states[i], steps[i]) && states[i + 1] == Apply(states[i], steps[i], refreshBufferMs)
  }

  // ---------------------------------------------------------------- the object

  class SessionKeyManager {
    const refreshBufferMs: int
    var sessionKey: Option<SessionKey>
    var refreshPromise: Option<nat>
    var creations: seq<Creation>
    var calls: map<nat, Call>

    ghost function State(): Manager
      reads this
    {
      Manager(sessionKey, refreshPromise, creations, calls)
    }

    constructor (refreshBufferMs: int)
      ensures State() == START && this.refreshBufferMs == refreshBufferMs
    {
      this.refreshBufferMs := refreshBufferMs;
      sessionKey, refreshPromise, creations, calls := None, None, [], map[];
    }

    /** A call up to its first await. */
    method GetSessionKey(caller: nat, now: int, expired: bool)
      requires caller !in calls
      modifies this
      ensures State() == Apply(old(State()), Step.GetSessionKey(caller, now, expired), refreshBufferMs)
      ensures calls[caller].Cached? <==>
        && old(sessionKey).Some? && !expired
        && now + refreshBufferMs < old(sessionKey).value.creationTimeMs + old(sessionKey).value.ttlMin * 60_000
    {
      if sessionKey.Some? && !NeedsRefresh(sessionKey.value, now, expired, refreshBufferMs) {
        calls := calls[caller := Cached(sessionKey.value)];
        return;
      }
      if refreshPromise.Some? {
        calls := calls[caller := Joined(refreshPromise.value)];
        return;
      }
      refreshPromise := Some(|creations|);
      calls := calls[caller := Owner(|creations|)];
      creations := creations + [Pending];
    }

    /** The rest of a call, once its creation has settled. */
    method Continue(caller: nat)
      requires Enabled(State(), Resume(caller))
      modifies this`sessionKey, this`refreshPromise, this`calls
      ensures State() == Resumed(old(State()), caller)
    {
      var id := calls[caller].creation;
      if calls[caller].Owner? {
        if creations[id].Created? {
          sessionKey := Some(creations[id].key);
        }
        refreshPromise := None;
      }
      calls := calls[caller := Done(id, creations[id])];
    }
  }

  // ---------------------------------------------------------------- what every step keeps

  ghost predicate CallOk(m: Manager, c: Call) {
    match c
    case Owner(id) => id < |m.creations| && m.refreshPromise == Some(id)
    case Joined(id) => id < |m.creations|
    case Cached(key) => exists id | 0 <= id < |m.creations| :: m.creations[id] == Created(key)
    case Done(id, result) => id < |m.creations| && !result.Pending? && m.creations[id] == result
  }

  ghost predicate TwoOwners(m: Manager, a: nat, b: nat) {
    a in m.calls && b in m.calls && a != b && m.calls[a].Owner? && m.calls[b].Owner?
  }

  ghost predicate Inv(m: Manager) {
    && (forall c | c in m.calls :: CallOk(m, m.calls[c]))
    && (forall a, b {:trigger TwoOwners(m, a, b)} :: !TwoOwners(m, a, b))
    && (m.refreshPromise.Some? ==>
          m.refreshPromise.value == |m.creations| - 1 && exists c :: c in m.calls && m.calls[c] == Owner(m.refreshPromise.value))
    && (forall id | 0 <= id < |m.creations| && m.creations[id].Pending? :: m.refreshPromise == Some(id))
    && KeyIsLatest(m)
  }

  /** Every creation after `from` that is over failed. */
  ghost predicate OnlyFailuresFrom(m: Manager, from: nat) {
    forall id | from <= id < |m.creations| && m.refreshPromise != Some(id) :: m.creations[id].Failed?
  }

  ghost predicate Produced(m: Manager, id: nat, key: SessionKey) {
    id < |m.creations| && m.refreshPromise != Some(id) && m.creations[id] == Created(key) && OnlyFailuresFrom(m, id + 1)
  }

  /** The stored key is the one from the last creation that succeeded. */
  ghost predicate KeyIsLatest(m: Manager) {
    match m.sessionKey
    case None => OnlyFailuresFrom(m, 0)
    case Some(key) => exists id :: Produced(m, id, key)
  }

  /** A settled creation is final, and creations are only added. */
  ghost predicate Grows(before: seq<Creation>, after: seq<Creation>) {
    |before| <= |after| && forall id | 0 <= id < |before| && !before[id].Pending? :: after[id] == before[id]
  }

  lemma CallOkGrows(m: Manager, m': Manager, c: Call)
    requires CallOk(m, c) && Grows(m.creations, m'.creations)
    requires c.Owner? ==> m'.refreshPromise == m.refreshPromise
    ensures CallOk(m', c)
  {
  }

  lemma CallKeepsInv(m: Manager, caller: nat, now: int, expired: bool, buffer: int)
    requires Inv(m) && caller !in m.calls
    ensures Inv(Called(m, caller, now, expired, buffer))
    ensures Grows(m.creations, Called(m, caller, now, expired, buffer).creations)
  {
    var m' := Called(m, caller, now, expired, buffer);
    forall c | c in m.calls ensures CallOk(m', m.calls[c]) {
      assert CallOk(m, m.calls[c]);
      CallOkGrows(m, m', m.calls[c]);
    }
    forall a, b ensures !TwoOwners(m', a, b) {
      assert !TwoOwners(m, a, b);
    }
    if m.sessionKey.Some? {
      var id :| Produced(m, id, m.sessionKey.value);
      assert Produced(m', id, m.sessionKey.value);
    }
    if m'.refreshPromise.Some? {
      if m.refreshPromise.Some? {
        var c :| c in m.calls && m.calls[c] == Owner(m.refreshPromise.value);
        assert m'.calls[c] == Owner(m.refreshPromise.value);
      } else {
        assert m'.calls[caller] == Owner(|m.creations|);
      }
    }
  }

  lemma SettleKeepsInv(m: Manager, creation: nat, result: Creation, buffer: int)
    requires Inv(m) && Enabled(m, Settle(creation, result))
    ensures Inv(Apply(m, Settle(creation, result), buffer))
  {
    var m' := Apply(m, Settle(creation, result), buffer);
    forall c | c in m'.calls ensures CallOk(m', m'.calls[c]) {
      assert CallOk(m, m.calls[c]);
      CallOkGrows(m, m', m.calls[c]);
    }
    forall a, b ensures !TwoOwners(m', a, b) {
      assert !TwoOwners(m, a, b);
    }
    if m.sessionKey.Some? {
      var id :| Produced(m, id, m.sessionKey.value);
      assert Produced(m', id, m.sessionKey.value);
    }
  }

  lemma ResumeKeepsInv(m: Manager, caller: nat)
    requires Inv(m) && Enabled(m, Resume(caller))
    ensures Inv(Resumed(m, caller))
  {
    var m' := Resumed(m, caller);
    assert CallOk(m, m.calls[caller]);
    forall c | c in m'.calls ensures CallOk(m', m'.calls[c]) {
      if c != caller {
        assert !TwoOwners(m, c, caller);
        assert CallOk(m, m.calls[c]);
        CallOkGrows(m, m', m.calls[c]);
      }
    }
    forall a, b ensures !TwoOwners(m', a, b) {
      assert !TwoOwners(m, a, b);
    }
    if m'.refreshPromise.Some? {
      var c :| c in m.calls && m.calls[c] == Owner(m.refreshPromise.value);
      assert m'.calls[c] == Owner(m.refreshPromise.value);
    }
    ResumeKeepsLatest(m, caller);
  }

  lemma ResumeKeepsLatest(m: Manager, caller: nat)
    requires KeyIsLatest(m) && Enabled(m, Resume(caller)) && CallOk(m, m.calls[caller])
    requires m.refreshPromise.Some? ==> m.refreshPromise.value == |m.creations| - 1
    ensures KeyIsLatest(Resumed(m, caller))
  {
    var m' := Resumed(m, caller);
    var id := m.calls[caller].creation;
    if m.calls[caller].Owner? && m.creations[id].Created? {
      assert Produced(m', id, m.creations[id].key);
    } else if m.sessionKey.Some? {
      var last :| Produced(m, last, m.sessionKey.value);
      assert Produced(m', last, m.sessionKey.value);
    }
  }

  lemma {:induction false} RunKeepsInv(states: seq<Manager>, steps: seq<Step>, buffer: int, n: nat)
    requires IsRun(states, steps, buffer) && n < |states|
    ensures Inv(states[n])
  {
    if n == 0 {
    } else {
      RunKeepsInv(states, steps, buffer, n - 1);
      match steps[n - 1]
      case GetSessionKey(caller, now, expired) => CallKeepsInv(states[n - 1], caller, now, expired, buffer);
      case Settle(creation, result) => SettleKeepsInv(states[n - 1], creation, result, buffer);
      case Resume(caller) => ResumeKeepsInv(states[n - 1], caller);
    }
  }

  // ---------------------------------------------------------------- what callers may rely on

  /** At most one creation is outstanding at any time. */
  lemma OneCreationAtATime(states: seq<Manager>, steps: seq<Step>, buffer: int, n: nat, a: nat, b: nat)
    requires IsRun(states, steps, buffer) && n < |states|
    requires a < |states[n].creations| && b < |states[n].creations|
    requires states[n].creations[a].Pending? && states[n].creations[b].Pending?
    ensures a == b
  {
    RunKeepsInv(states, steps, buffer, n);
  }

  /** The call keeps waiting for the same creation until it is done with that creation's result. */
  ghost predicate Awaits(m: Manager, caller: nat, creation: nat) {
    && caller in m.calls && creation < |m.creations|
    && match m.calls[caller]
       case Owner(id) => id == creation
       case Joined(id) => id == creation
       case Cached(_) => false
       case Done(id, result) => id == creation && !result.Pending? && m.creations[creation] == result
  }

  lemma CallStartsWaiting(m: Manager, caller: nat, now: int, expired: bool, buffer: int)
    requires Inv(m) && caller !in m.calls && !HasFreshKey(m, now, expired, buffer)
    ensures Awaits(Called(m, caller, now, expired, buffer), caller, m.refreshPromise.GetOr(|m.creations|))
  {
  }

  lemma StepKeepsWaiting(m: Manager, s: Step, buffer: int, caller: nat, creation: nat)
    requires Enabled(m, s) && Awaits(m, caller, creation)
    ensures Awaits(Apply(m, s, buffer), caller, creation)
  {
  }

  /** Whoever calls while a creation is under way, or starts it, gets the result of that very creation. */
  lemma {:induction false} JoinersGetTheResult(states: seq<Manager>, steps: seq<Step>, buffer: int, k: nat, n: nat, caller: nat)
    requires IsRun(states, steps, buffer) && k < n < |states|
    requires steps[k].GetSessionKey? && steps[k].caller == caller
    requires !HasFreshKey(states[k], steps[k].now, steps[k].expired, buffer)
    ensures Awaits(states[n], caller, states[k].refreshPromise.GetOr(|states[k].creations|))
  {
    if n == k + 1 {
      RunKeepsInv(states, steps, buffer, k);
      CallStartsWaiting(states[k], caller, steps[k].now, steps[k].expired, buffer);
    } else {
      JoinersGetTheResult(states, steps, buffer, k, n - 1, caller);
      StepKeepsWaiting(states[n - 1], steps[n - 1], buffer, caller, states[k].refreshPromise.GetOr(|states[k].creations|));
    }
  }

  /**
    Nobody is stuck: every unfinished call's creation can still settle, either way, and then the call can
    resume with that result and is over; and the promise is set only while its owner has yet to resume, which clears it.
   */
  lemma NobodyIsStuck(states: seq<Manager>, steps: seq<Step>, buffer: int, n: nat, caller: nat)
    requires IsRun(states, steps, buffer) && n < |states|
    requires caller in states[n].calls && (states[n].calls[caller].Owner? || states[n].calls[caller].Joined?)
    ensures var m, id := states[n], states[n].calls[caller].creation;
      && id < |m.creations|
      && (m.creations[id].Pending? ==> forall result: Creation | !result.Pending? ::
            Enabled(m, Settle(id, result))
            && Apply(m, Settle(id, result), buffer).creations[id] == result
            && Enabled(Apply(m, Settle(id, result), buffer), Resume(caller)))
      && (!m.creations[id].Pending? ==>
            Enabled(m, Resume(caller)) && Resumed(m, caller).calls[caller] == Done(id, m.creations[id])
            && (m.calls[caller].Owner? ==> Resumed(m, caller).refreshPromise == None))
  {
    RunKeepsInv(states, steps, buffer, n);
    assert CallOk(states[n], states[n].calls[caller]);
  }

  /** Once everything has settled and resumed, a call either has a fresh key or starts a new creation. */
  lemma QuiescentCallsStartAfresh(states: seq<Manager>, steps: seq<Step>, buffer: int, n: nat, caller: nat, now: int, expired: bool)
    requires IsRun(states, steps, buffer) && n < |states| && caller !in states[n].calls
    requires forall c | c in states[n].calls :: states[n].calls[c].Cached? || states[n].calls[c].Done?
    ensures var m' := Called(states[n], caller, now, expired, buffer);
      m'.calls[caller].Cached? || m'.calls[caller] == Owner(|states[n].creations|)
  {
    RunKeepsInv(states, steps, buffer, n);
  }
}
