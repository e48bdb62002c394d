/** The life of a config session in one process (translib/cs), its commit timer, and how the
    sessions and the plain write handles of several processes share the lock.

    A server's calls are cut where another actor can get in between: an API call runs from its
    session snapshot until it waits on the commit channel, and again after the rendezvous; a timed
    commit runs until the mutex is free again, and then starts its timer; the timer goroutine runs
    from its wake-up to the configuration reload, and again after it. */
module SessionLifecycle {
  import opened Wrappers
  import opened ConfigLock

  datatype State = Active | Suspended

  datatype CommitState = NoCommit | ConfirmTimer | RollbackReplace

  /** commitCh stands for the channel and the timer, which are set together. */
  datatype CS = CS(token: string, state: State, commitState: CommitState, commitCh: Option<nat>, inTx: bool)

  /** A timer goroutine; its position in the list is its channel. */
  datatype Timer = Timer(phase: Phase, token: string)

  datatype Phase = Waiting | Reloading | Finished

  datatype Purpose = ToConfirm | ToAbort | ToKill

  /** A call that has more to do: a timed commit that has to start its timer, or a call that met a
      running timer. */
  datatype Call =
    | Starting(token: string)
    | Sending(purpose: Purpose, token: string, ch: nat)
    | Received(purpose: Purpose, token: string, ch: nat)
    | Returned

  /** How a commit that awaited confirmation ended. */
  datatype Resolution = Resolution(token: string, byTimer: bool)

  /** The session that was torn down, and the one that the actor had in mind. */
  datatype TearDown = TearDown(token: string, meant: string)

  predicate Distinct(ts: seq<string>) {
    forall i, j :: 0 <= i < j < |ts| ==> ts[i] != ts[j]
  }

  function Resolved(rs: seq<Resolution>): seq<string> {
    seq(|rs|, i requires 0 <= i < |rs| => rs[i].token)
  }

  function Torn(ts: seq<TearDown>): seq<string> {
    seq(|ts|, i requires 0 <= i < |ts| => ts[i].token)
  }

  // ----- what holds between the session, its timer and the waiting calls -----

  /** A live timer goroutine is that of the current session. */
  ghost predicate TimersBelong(uCS: Option<CS>, timers: seq<Timer>) {
    forall i :: 0 <= i < |timers| && !timers[i].phase.Finished? ==>
      && uCS.Some? && uCS.value.token == timers[i].token && uCS.value.commitCh == Some(i)
      && uCS.value.commitState == if timers[i].phase.Waiting? then ConfirmTimer else RollbackReplace
  }

  ghost predicate CommitBelongs(uCS: Option<CS>, timers: seq<Timer>) {
    uCS.Some? ==>
      var cs := uCS.value;
      && (cs.commitState.NoCommit? ==> cs.commitCh.None?)
      && (cs.commitState.RollbackReplace? ==> cs.commitCh.Some?)
      && (!cs.commitState.NoCommit? ==> !cs.inTx)
      && (cs.commitCh.Some? ==>
            && cs.commitCh.value < |timers| && timers[cs.commitCh.value].token == cs.token
            && (timers[cs.commitCh.value].phase.Reloading? <==> cs.commitState.RollbackReplace?))
  }

  predicate Engaged(c: Call) {
    c.Starting? || c.Received?
  }

  /** A call that is engaged deals with the current session, whose timer has not been started, or
      is over. */
  ghost predicate CallBelongs(uCS: Option<CS>, timers: seq<Timer>, c: Call) {
    match c
    case Returned => true
    case Starting(token) =>
      && uCS.Some? && uCS.value.token == token && uCS.value.commitState.ConfirmTimer? && uCS.value.commitCh.None?
    case Sending(_, token, ch) => ch < |timers| && timers[ch].token == token
    case Received(_, token, ch) =>
      && uCS.Some? && uCS.value.token == token && uCS.value.commitState.ConfirmTimer?
      && uCS.value.commitCh == Some(ch) && ch < |timers| && timers[ch].phase.Finished?
  }

  ghost predicate CallsBelong(uCS: Option<CS>, timers: seq<Timer>, calls: seq<Call>) {
    && (forall c :: 0 <= c < |calls| ==> CallBelongs(uCS, timers, calls[c]))
    && forall c, d :: 0 <= c < |calls| && 0 <= d < |calls| && Engaged(calls[c]) && Engaged(calls[d]) ==> c == d
  }

  /** Every commit is resolved at most once, every session torn down at most once, and always
      by an actor that meant it. */
  ghost predicate LogsClean(uCS: Option<CS>, timers: seq<Timer>, used: set<string>,
                            rs: seq<Resolution>, ts: seq<TearDown>) {
    && Distinct(Resolved(rs)) && Distinct(Torn(ts))
    && (forall i :: 0 <= i < |rs| ==> rs[i].token in used)
    && (forall i :: 0 <= i < |ts| ==> ts[i].token in used && ts[i].meant == ts[i].token)
    && (uCS.Some? ==>
          && uCS.value.token in used && uCS.value.token !in Torn(ts)
          && (uCS.value.token in Resolved(rs) ==>
                uCS.value.commitCh.Some? && forall i :: 0 <= i < |timers| ==> !timers[i].phase.Waiting?))
  }

  ghost predicate OrderlyParts(uCS: Option<CS>, timers: seq<Timer>, calls: seq<Call>, used: set<string>,
                               rs: seq<Resolution>, ts: seq<TearDown>) {
    && TimersBelong(uCS, timers) && CommitBelongs(uCS, timers)
    && CallsBelong(uCS, timers, calls) && LogsClean(uCS, timers, used, rs, ts)
  }

  lemma ResolvedAppend(rs: seq<Resolution>, r: Resolution)
    requires Distinct(Resolved(rs)) && r.token !in Resolved(rs)
    ensures Distinct(Resolved(rs + [r])) && forall t :: t in Resolved(rs + [r]) <==> t in Resolved(rs) || t == r.token
  {
    assert Resolved(rs + [r]) == Resolved(rs) + [r.token];
  }

  lemma TornAppend(ts: seq<TearDown>, t: TearDown)
    requires Distinct(Torn(ts)) && t.token !in Torn(ts)
    ensures Distinct(Torn(ts + [t])) && forall x :: x in Torn(ts + [t]) <==> x in Torn(ts) || x == t.token
  {
    assert Torn(ts + [t]) == Torn(ts) + [t.token];
  }

  lemma NewSessionOrderly(timers: seq<Timer>, calls: seq<Call>, used: set<string>, rs: seq<Resolution>,
                          ts: seq<TearDown>, token: string)
    requires OrderlyParts(None, timers, calls, used, rs, ts) && token !in used
    ensures OrderlyParts(Some(CS(token, Active, NoCommit, None, true)), timers, calls, used + {token}, rs, ts)
  {
  }

  /** Suspending, resuming, or losing the transaction. */
  lemma StateChangeOrderly(cs: CS, cs': CS, timers: seq<Timer>, calls: seq<Call>, used: set<string>,
                           rs: seq<Resolution>, ts: seq<TearDown>)
    requires OrderlyParts(Some(cs), timers, calls, used, rs, ts)
    requires cs' == cs.(state := cs'.state, inTx := cs'.inTx) && (cs'.inTx ==> cs.inTx)
    ensures OrderlyParts(Some(cs'), timers, calls, used, rs, ts)
  {
  }

  /** A timed commit has gone through, and has yet to start its timer. */
  lemma TimedCommitOrderly(cs: CS, timers: seq<Timer>, calls: seq<Call>, used: set<string>,
                           rs: seq<Resolution>, ts: seq<TearDown>)
    requires OrderlyParts(Some(cs), timers, calls, used, rs, ts) && cs.commitState.NoCommit?
    ensures OrderlyParts(Some(cs.(inTx := false, commitState := ConfirmTimer)), timers, calls + [Starting(cs.token)],
                         used, rs, ts)
  {
    NobodyElse(cs, timers, calls, used, rs, ts);
    assert forall c :: 0 <= c < |calls| ==> CallBelongs(Some(cs), timers, calls[c]);
  }

  lemma StartTimerOrderly(uCS: Option<CS>, timers: seq<Timer>, calls: seq<Call>, used: set<string>,
                          rs: seq<Resolution>, ts: seq<TearDown>, c: nat)
    requires OrderlyParts(uCS, timers, calls, used, rs, ts) && c < |calls| && calls[c].Starting?
    ensures uCS.Some? && uCS.value.token == calls[c].token
    ensures OrderlyParts(Some(uCS.value.(commitCh := Some(|timers|))), timers + [Timer(Waiting, uCS.value.token)],
                         calls[c := Returned], used, rs, ts)
  {
    assert CallBelongs(uCS, timers, calls[c]);
    assert forall d :: 0 <= d < |calls| ==> CallBelongs(uCS, timers, calls[d]);
  }

  lemma CallOrderly(uCS: Option<CS>, timers: seq<Timer>, calls: seq<Call>, used: set<string>,
                    rs: seq<Resolution>, ts: seq<TearDown>, c: Call)
    requires OrderlyParts(uCS, timers, calls, used, rs, ts) && !Engaged(c) && CallBelongs(uCS, timers, c)
    ensures OrderlyParts(uCS, timers, calls + [c], used, rs, ts)
  {
  }

  lemma ReturnOrderly(uCS: Option<CS>, timers: seq<Timer>, calls: seq<Call>, used: set<string>,
                      rs: seq<Resolution>, ts: seq<TearDown>, c: nat)
    requires OrderlyParts(uCS, timers, calls, used, rs, ts) && c < |calls|
    ensures OrderlyParts(uCS, timers, calls[c := Returned], used, rs, ts)
  {
  }

  /** The call that got through the channel is the last to deal with its session. */
  lemma ReceivedAlone(uCS: Option<CS>, timers: seq<Timer>, calls: seq<Call>, used: set<string>,
                      rs: seq<Resolution>, ts: seq<TearDown>, c: nat)
    requires OrderlyParts(uCS, timers, calls, used, rs, ts) && c < |calls| && calls[c].Received?
    ensures uCS.Some? && uCS.value.token == calls[c].token && uCS.value.commitState.ConfirmTimer?
    ensures forall i :: 0 <= i < |timers| ==> timers[i].phase.Finished?
    ensures var rest := calls[c := Returned]; forall d :: 0 <= d < |rest| ==> !Engaged(rest[d])
  {
    assert CallBelongs(uCS, timers, calls[c]);
  }

  /** The rendezvous resolves a commit that nobody has resolved before. */
  lemma RendezvousOrderly(uCS: Option<CS>, timers: seq<Timer>, calls: seq<Call>, used: set<string>,
                          rs: seq<Resolution>, ts: seq<TearDown>, c: nat)
    requires OrderlyParts(uCS, timers, calls, used, rs, ts) && c < |calls| && calls[c].Sending?
    requires calls[c].ch < |timers| && timers[calls[c].ch].phase.Waiting?
    ensures uCS.Some? && uCS.value.token == calls[c].token
    ensures var call := calls[c];
            OrderlyParts(uCS, timers[call.ch := Timer(Finished, call.token)],
                         calls[c := Received(call.purpose, call.token, call.ch)], used,
                         rs + [Resolution(call.token, false)], ts)
  {
    var call := calls[c];
    assert CallBelongs(uCS, timers, call);
    ResolvedAppend(rs, Resolution(call.token, false));
    assert forall d :: 0 <= d < |calls| ==> CallBelongs(uCS, timers, calls[d]);
    assert forall d :: 0 <= d < |calls| ==> !Engaged(calls[d]);
  }

  lemma TimeoutOrderly(uCS: Option<CS>, timers: seq<Timer>, calls: seq<Call>, used: set<string>,
                       rs: seq<Resolution>, ts: seq<TearDown>, i: nat)
    requires OrderlyParts(uCS, timers, calls, used, rs, ts) && i < |timers| && timers[i].phase.Waiting?
    ensures uCS.Some? && uCS.value.token == timers[i].token
    ensures OrderlyParts(Some(uCS.value.(commitState := RollbackReplace)),
                         timers[i := Timer(Reloading, timers[i].token)],
                         calls, used, rs + [Resolution(timers[i].token, true)], ts)
  {
    ResolvedAppend(rs, Resolution(timers[i].token, true));
    assert forall d :: 0 <= d < |calls| ==> CallBelongs(uCS, timers, calls[d]);
    assert forall d :: 0 <= d < |calls| ==> !Engaged(calls[d]);
  }

  /** A session may go once no goroutine and no engaged call is left to deal with it. */
  lemma TearDownOrderly(cs: CS, timers: seq<Timer>, calls: seq<Call>, used: set<string>,
                        rs: seq<Resolution>, ts: seq<TearDown>)
    requires OrderlyParts(Some(cs), timers, calls, used, rs, ts)
    requires forall i :: 0 <= i < |timers| ==> timers[i].phase.Finished?
    requires forall c :: 0 <= c < |calls| ==> !Engaged(calls[c])
    ensures OrderlyParts(None, timers, calls, used, rs, ts + [TearDown(cs.token, cs.token)])
  {
    TornAppend(ts, TearDown(cs.token, cs.token));
    assert forall c :: 0 <= c < |calls| ==> CallBelongs(Some(cs), timers, calls[c]);
  }

  /** Without a commit in progress, nothing else deals with the session. */
  lemma NobodyElse(cs: CS, timers: seq<Timer>, calls: seq<Call>, used: set<string>,
                   rs: seq<Resolution>, ts: seq<TearDown>)
    requires OrderlyParts(Some(cs), timers, calls, used, rs, ts) && cs.commitState.NoCommit?
    ensures forall i :: 0 <= i < |timers| ==> timers[i].phase.Finished?
    ensures forall c :: 0 <= c < |calls| ==> !Engaged(calls[c])
  {
    assert forall c :: 0 <= c < |calls| ==> CallBelongs(Some(cs), timers, calls[c]);
  }

  /** The goroutine that reloaded the configuration tears down its own session. */
  lemma EndReloadOrderly(uCS: Option<CS>, timers: seq<Timer>, calls: seq<Call>, used: set<string>,
                         rs: seq<Resolution>, ts: seq<TearDown>, i: nat)
    requires OrderlyParts(uCS, timers, calls, used, rs, ts) && i < |timers| && timers[i].phase.Reloading?
    ensures uCS.Some? && uCS.value.token == timers[i].token
    ensures OrderlyParts(None, timers[i := Timer(Finished, timers[i].token)], calls, used, rs,
                         ts + [TearDown(timers[i].token, timers[i].token)])
  {
    TornAppend(ts, TearDown(timers[i].token, timers[i].token));
    assert forall c :: 0 <= c < |calls| ==> CallBelongs(uCS, timers, calls[c]);
  }

  lemma RestartOrderly(uCS: Option<CS>, timers: seq<Timer>, calls: seq<Call>, used: set<string>,
                       rs: seq<Resolution>, ts: seq<TearDown>)
    requires OrderlyParts(uCS, timers, calls, used, rs, ts)
    ensures OrderlyParts(None, [], [], used, rs, ts)
  {
  }

  // ----- who owns the lock -----

  /** cdbLock is set exactly when one owner in this process has placed it: the session, under
      its token, or one write handle, under the common id. */
  ghost predicate Owned(cdbLock: Option<LockStruct>, uCS: Option<CS>, handles: map<nat, bool>) {
    && (uCS.Some? ==>
          && uCS.value.token != NO_SESSION_TOKEN && cdbLock.Some? && cdbLock.value.id == uCS.value.token)
    && (forall h :: Places(handles, h) ==> cdbLock.Some? && cdbLock.value.id == NO_SESSION_TOKEN)
    && (forall g, h :: Places(handles, g) && Places(handles, h) ==> g == h)
    && (cdbLock.Some? && uCS.None? ==> exists h :: Places(handles, h))
  }

  /** Has handle h placed the lock? */
  predicate Places(handles: map<nat, bool>, h: nat) {
    h in handles && handles[h]
  }

  /** Opening a handle that places no lock, or closing one that has placed none. */
  lemma OwnedStays(cdbLock: Option<LockStruct>, uCS: Option<CS>, handles: map<nat, bool>,
                   handles': map<nat, bool>, h: nat)
    requires Owned(cdbLock, uCS, handles) && !Places(handles, h)
    requires handles' == handles[h := false] || handles' == handles - {h}
    ensures Owned(cdbLock, uCS, handles')
  {
    forall g
      ensures Places(handles', g) <==> Places(handles, g)
    {
    }
    if cdbLock.Some? && uCS.None? {
      var g :| Places(handles, g);
      assert Places(handles', g);
    }
  }

  lemma OwnedByHandle(handles: map<nat, bool>, handles': map<nat, bool>, h: nat, comm: string)
    requires Owned(None, None, handles) && handles' == handles[h := true]
    ensures Owned(Some(LockStruct(NO_SESSION_TOKEN, comm, true)), None, handles')
  {
    assert Places(handles', h);
    forall g | Places(handles', g)
      ensures g == h
    {
      assert !Places(handles, g);
    }
  }

  /** What one process may do to the shared field: place a lock, or remove its own. */
  predicate FieldStep(before: Option<string>, after: Option<string>, comm: string) {
    before == after || (before.None? && OwnField(after, comm)) || (after.None? && OwnField(before, comm))
  }

  /** The handle that placed the lock can go together with it. */
  lemma OnlyPlacer(cdbLock: Option<LockStruct>, uCS: Option<CS>, handles: map<nat, bool>, h: nat)
    requires Owned(cdbLock, uCS, handles) && Places(handles, h)
    ensures cdbLock.Some? && uCS.None? && Owned(None, None, handles - {h})
  {
    forall g
      ensures !Places(handles - {h}, g)
    {
      assert Places(handles, g) ==> g == h;
    }
  }

  /** Blocked calls have yet to get through the commit channel. */
  datatype Status = Success | Blocked | Refused | Failure

  /** Does deleteCS get rid of the transaction without an error? */
  predicate TxAborts(cs: CS, unwatchOk: bool) {
    cs.commitState.ConfirmTimer? || (cs.inTx && unwatchOk)
  }

  /** One process: the lock globals of package db, and those of package cs. */
  class Server {
    const lock: DbLock
    var uCS: Option<CS>
    var handles: map<nat, bool>    // open non-session handles, and whether each placed the lock
    var timers: seq<Timer>
    var calls: seq<Call>
    var panicked: bool
    var used: set<string>          // the tokens handed out so far
    ghost var resolved: seq<Resolution>
    ghost var torn: seq<TearDown>

    constructor (lock: DbLock)
      requires ExecName(lock.execName) && lock.cdbLock.None?
      ensures Valid() && Orderly() && this.lock == lock && uCS.None? && used == {}
    {
      this.lock, uCS, handles, timers, calls, panicked := lock, None, map[], [], [], false;
      used, resolved, torn := {}, [], [];
    }

    ghost predicate Valid()
      reads this, lock, lock.db
    {
      ExecName(lock.execName) && lock.Matches() && Owned(lock.cdbLock, uCS, handles)
    }

    ghost predicate Orderly()
      reads this
    {
      !panicked && OrderlyParts(uCS, timers, calls, used, resolved, torn)
    }

    /** The session with this token, as the caller sees it. */
    function GetSession(token: string): Option<CS>
      reads this
    {
      if uCS.Some? && uCS.value.token == token then uCS else None
    }

    // ----- the session functions of cs.go, each under its mutex -----

    /** newCS */
    method NewCS(token: string, txOk: bool) returns (ok: bool)
      requires Valid() && token != NO_SESSION_TOKEN && token !in used
      modifies this`uCS, this`used, lock`cdbLock, lock.db
      ensures Valid() && FieldStep(old(lock.db.field), lock.db.field, lock.execName)
      ensures ok ==>
                && old(uCS).None? && uCS == Some(CS(token, Active, NoCommit, None, true))
                && used == old(used) + {token}
      ensures !ok ==> uCS == old(uCS) && used == old(used)
      ensures lock.db.reliable ==>
                (ok <==> old(uCS).None? && txOk && old(lock.cdbLock).None? && old(lock.db.field).None?)
      ensures old(Orderly()) ==> Orderly()
    {
      if uCS.Some? || !txOk {
        return false;
      }
      LockValueParts(lock.execName, token);
      var e := lock.ConfigDBTryLock(token);
      if e.Fail? {
        return false;
      }
      if Orderly() {
        NewSessionOrderly(timers, calls, used, resolved, torn, token);
      }
      uCS := Some(CS(token, Active, NoCommit, None, true));
      used := used + {token};
      return true;
    }

    /** resumeCS, suspendCS */
    method SetState(state: State) returns (ok: bool)
      requires Valid()
      modifies this`uCS
      ensures Valid() && (old(Orderly()) ==> Orderly())
      ensures ok <==> old(uCS).Some? && old(uCS).value.state != state
      ensures uCS == if ok then Some(old(uCS).value.(state := state)) else old(uCS)
    {
      if uCS.None? || uCS.value.state == state {
        return false;
      }
      if Orderly() {
        StateChangeOrderly(uCS.value, uCS.value.(state := state), timers, calls, used, resolved, torn);
      }
      uCS := Some(uCS.value.(state := state));
      return true;
    }

    /** The end of commitCS, deleteCS and cleanCS: the lock goes, and the session with it. */
    method TearDownCS(ghost meant: string)
      requires Valid() && uCS.Some?
      modifies this`uCS, this`torn, lock`cdbLock, lock.db
      ensures Valid() && FieldStep(old(lock.db.field), lock.db.field, lock.execName)
      ensures uCS.None? && torn == old(torn) + [TearDown(old(uCS).value.token, meant)]
      ensures lock.cdbLock.None? && (lock.db.reliable ==> lock.db.field.None?)
    {
      LockValueParts(lock.execName, lock.cdbLock.value.id);
      var _ := lock.ConfigDBUnlock(uCS.value.token);
      torn := torn + [TearDown(uCS.value.token, meant)];
      uCS := None;
    }

    /** cleanCS does not look whether there is a session. */
    method CleanCS(ghost meant: string)
      requires Valid()
      modifies this`uCS, this`torn, this`panicked, lock`cdbLock, lock.db
      ensures Valid() && FieldStep(old(lock.db.field), lock.db.field, lock.execName) && uCS.None?
      ensures panicked == (old(panicked) || old(uCS).None?)
      ensures torn == if old(uCS).None? then old(torn) else old(torn) + [TearDown(old(uCS).value.token, meant)]
      ensures old(uCS).Some? ==> lock.cdbLock.None? && (lock.db.reliable ==> lock.db.field.None?)
    {
      if uCS.None? {
        panicked := true;
      } else {
        TearDownCS(meant);
      }
    }

    /** commitCS. The transaction is over in any case. */
    method CommitCS(isConfirmNeeded: bool, txOk: bool) returns (ok: bool)
      requires Valid()
      modifies this`uCS, this`torn, lock`cdbLock, lock.db
      ensures Valid() && FieldStep(old(lock.db.field), lock.db.field, lock.execName)
      ensures ok <==> old(uCS).Some? && old(uCS).value.state.Active? && old(uCS).value.inTx && txOk
      ensures old(uCS).None? || !old(uCS).value.state.Active? ==> uCS == old(uCS)
      ensures old(uCS).Some? && old(uCS).value.state.Active? && !ok ==> uCS == Some(old(uCS).value.(inTx := false))
      ensures ok && isConfirmNeeded ==> uCS == Some(old(uCS).value.(inTx := false, commitState := ConfirmTimer))
      ensures ok && !isConfirmNeeded ==> uCS.None? && lock.cdbLock.None? && (lock.db.reliable ==> lock.db.field.None?)
      ensures torn == if ok && !isConfirmNeeded
                      then old(torn) + [TearDown(old(uCS).value.token, old(uCS).value.token)] else old(torn)
      ensures old(Orderly()) && !(ok && isConfirmNeeded) ==> Orderly()
    {
      if uCS.None? || !uCS.value.state.Active? {
        return false;
      }
      ok := uCS.value.inTx && txOk;
      if Orderly() {
        StateChangeOrderly(uCS.value, uCS.value.(inTx := false), timers, calls, used, resolved, torn);
        if ok && !isConfirmNeeded {
          NobodyElse(uCS.value, timers, calls, used, resolved, torn);
          TearDownOrderly(uCS.value, timers, calls, used, resolved, torn);
        }
      }
      if ok && !isConfirmNeeded {
        TearDownCS(uCS.value.token);
      } else {
        uCS := Some(uCS.value.(inTx := false, commitState := if ok then ConfirmTimer else uCS.value.commitState));
      }
    }

    /** deleteCS. The session goes even if its transaction cannot be aborted, which is so when a
        commit has ended it already and no confirmation is awaited. */
    method DeleteCS(ghost meant: string, unwatchOk: bool) returns (ok: bool, e: Status)
      requires Valid()
      modifies this`uCS, this`torn, lock`cdbLock, lock.db
      ensures Valid() && FieldStep(old(lock.db.field), lock.db.field, lock.execName)
      ensures ok <==> old(uCS).Some?
      ensures uCS.None? && torn == if ok then old(torn) + [TearDown(old(uCS).value.token, meant)] else old(torn)
      ensures ok ==> lock.cdbLock.None? && (lock.db.reliable ==> lock.db.field.None?)
      ensures e == if ok && TxAborts(old(uCS).value, unwatchOk) then Success else Failure
    {
      if uCS.None? {
        return false, Failure;
      }
      e := if TxAborts(uCS.value, unwatchOk) then Success else Failure;
      TearDownCS(meant);
      ok := true;
    }

    // ----- the calls of the API -----

    /** Nothing about the session has changed. */
    twostate predicate Untouched()
      reads this
    {
      uCS == old(uCS) && calls == old(calls) && timers == old(timers) && torn == old(torn)
    }

    /** The call waits on the channel of the running commit timer, and nothing else has happened. */
    twostate predicate NowWaits(purpose: Purpose)
      requires old(uCS).Some? && old(uCS).value.commitCh.Some?
      reads this
    {
      && uCS == old(uCS) && timers == old(timers) && torn == old(torn)
      && calls == old(calls) + [Sending(purpose, uCS.value.token, uCS.value.commitCh.value)]
    }

    /** The session is gone, and with it the lock, unless STATE_DB failed. Nothing else has happened. */
    twostate predicate NowGone()
      requires old(uCS).Some?
      reads this, lock, lock.db
    {
      && lock.cdbLock.None? && (lock.db.reliable ==> lock.db.field.None?)
      && uCS.None? && timers == old(timers) && calls == old(calls)
      && torn == old(torn) + [TearDown(old(uCS).value.token, old(uCS).value.token)]
    }

    /** StartOrResume, by name: the one unnamed session there can be. */
    method StartOrResume(token: string, pidActive: bool, txOk: bool) returns (status: Status)
      requires Valid() && token != NO_SESSION_TOKEN && token !in used
      modifies this`uCS, this`used, lock`cdbLock, lock.db
      ensures Valid() && FieldStep(old(lock.db.field), lock.db.field, lock.execName)
      ensures old(Orderly()) ==> Orderly()
      ensures old(uCS).Some? ==>
                && uCS == Some(old(uCS).value.(state := Active)) && used == old(used)
                && (status.Success? <==> old(uCS).value.state.Suspended? || !pidActive)
      ensures status.Success? && old(uCS).None? ==> uCS == Some(CS(token, Active, NoCommit, None, true))
      ensures !status.Success? ==> uCS == old(uCS)
    {
      var ok;
      if uCS.None? {
        ok := NewCS(token, txOk);
      } else {
        if uCS.value.state.Active? {
          if pidActive {
            return Refused;
          }
          ok := SetState(Suspended);
        }
        ok := SetState(Active);
      }
      status := if ok then Success else Failure;
    }

    method Exit(token: string) returns (status: Status)
      requires Valid()
      modifies this`uCS
      ensures Valid() && (old(Orderly()) ==> Orderly())
      ensures status.Success? <==> old(GetSession(token)).Some? && old(uCS).value.state.Active?
      ensures uCS == if status.Success? then Some(old(uCS).value.(state := Suspended)) else old(uCS)
    {
      if GetSession(token).None? || !uCS.value.state.Active? {
        return Refused;
      }
      var _ := SetState(Suspended);
      return Success;
    }

    /** A call that has to get through the commit channel; it waits there from now on. */
    method WaitOnChannel(purpose: Purpose)
      requires Valid() && uCS.Some? && uCS.value.commitCh.Some?
      modifies this`calls
      ensures Valid() && (old(Orderly()) ==> Orderly())
      ensures calls == old(calls) + [Sending(purpose, uCS.value.token, uCS.value.commitCh.value)]
    {
      if Orderly() {
        CallOrderly(uCS, timers, calls, used, resolved, torn,
                    Sending(purpose, uCS.value.token, uCS.value.commitCh.value));
      }
      calls := calls + [Sending(purpose, uCS.value.token, uCS.value.commitCh.value)];
    }

    /** A timed commit has gone through, but its timer is not there yet. */
    predicate TimerPending()
      reads this`uCS
    {
      uCS.Some? && uCS.value.commitState.ConfirmTimer? && uCS.value.commitCh.None?
    }

    /** Commit, up to where it has to wait. A confirmation before the timer is there cleans up at once. */
    method Commit(token: string, withTimer: bool, confirm: bool, saveOk: bool, txOk: bool) returns (status: Status)
      requires Valid()
      modifies this`uCS, this`calls, this`torn, lock`cdbLock, lock.db
      ensures Valid() && FieldStep(old(lock.db.field), lock.db.field, lock.execName)
      ensures old(Orderly()) && !(confirm && old(TimerPending())) ==> Orderly()
      ensures status.Refused? ==> Untouched()
      ensures !status.Refused? ==> old(GetSession(token)).Some? && old(uCS).value.state.Active?
      ensures !status.Refused? && confirm ==>
                && old(uCS).value.commitState.ConfirmTimer?
                && if old(TimerPending()) then status.Success? && NowGone() else status.Blocked? && NowWaits(ToConfirm)
      ensures status.Blocked? ==> confirm
      ensures status.Success? && !confirm ==>
                && old(uCS).value.inTx && txOk
                && if withTimer then
                     && uCS == Some(old(uCS).value.(inTx := false, commitState := ConfirmTimer))
                     && calls == old(calls) + [Starting(token)] && torn == old(torn)
                   else NowGone()
      ensures status.Failure? ==> uCS == Some(old(uCS).value.(inTx := false)) && !(old(uCS).value.inTx && txOk)
    {
      if GetSession(token).None? || !uCS.value.state.Active? {
        return Refused;
      }
      if confirm {
        if !uCS.value.commitState.ConfirmTimer? {
          return Refused;
        }
        if uCS.value.commitCh.Some? {
          WaitOnChannel(ToConfirm);
          return Blocked;
        }
        TearDownCS(token);
        return Success;
      }
      if uCS.value.commitState.ConfirmTimer? || (withTimer && !saveOk) {
        return Refused;
      }
      if Orderly() && uCS.value.commitState.NoCommit? {
        TimedCommitOrderly(uCS.value, timers, calls, used, resolved, torn);
      }
      var ok := CommitCS(withTimer, txOk);
      if !ok {
        return Failure;
      }
      if withTimer {
        calls := calls + [Starting(token)];
      }
      return Success;
    }

    /** processCommitTimer: a new goroutine on a new channel, for the session that is there now. */
    method ProcessCommitTimer(c: nat) returns (ok: bool)
      requires Valid() && c < |calls| && calls[c].Starting?
      modifies this`uCS, this`timers, this`calls
      ensures Valid() && (old(Orderly()) ==> Orderly())
      ensures ok <==> old(uCS).Some?
      ensures calls == old(calls)[c := Returned]
      ensures if ok then
                && uCS == Some(old(uCS).value.(commitCh := Some(|old(timers)|)))
                && timers == old(timers) + [Timer(Waiting, old(calls)[c].token)]
              else uCS == old(uCS) && timers == old(timers)
    {
      if Orderly() {
        StartTimerOrderly(uCS, timers, calls, used, resolved, torn, c);
      }
      var token := calls[c].token;
      calls := calls[c := Returned];
      if uCS.None? {
        return false;
      }
      uCS := Some(uCS.value.(commitCh := Some(|timers|)));
      timers := timers + [Timer(Waiting, token)];
      return true;
    }

    /** Abort, up to where it has to wait. It leaves things in order exactly when the caller has
        made sure that no rollback to the old configuration is under way, and that no timed commit
        is about to start its timer; then it stops a timer that is not there, and panics. */
    method Abort(token: string, unwatchOk: bool) returns (status: Status)
      requires Valid()
      modifies this`uCS, this`calls, this`torn, this`panicked, lock`cdbLock, lock.db
      ensures Valid() && FieldStep(old(lock.db.field), lock.db.field, lock.execName)
      ensures old(Orderly()) ==>
                (Orderly() <==> !(&& old(GetSession(token)).Some? && old(uCS).value.state.Active?
                                  && (old(uCS).value.commitState.RollbackReplace? || old(TimerPending()))))
      ensures status.Refused? <==> old(GetSession(token)).None? || !old(uCS).value.state.Active?
      ensures panicked == (old(panicked) || (!status.Refused? && old(TimerPending())))
      ensures if status.Refused? || old(TimerPending()) then Untouched()
              else if old(uCS).value.commitState.ConfirmTimer? then status.Blocked? && NowWaits(ToAbort)
              else NowGone() && status == if TxAborts(old(uCS).value, unwatchOk) then Success else Failure
    {
      if GetSession(token).None? || !uCS.value.state.Active? {
        return Refused;
      }
      if uCS.value.commitState.ConfirmTimer? {
        if uCS.value.commitCh.None? {
          panicked := true;
        } else {
          WaitOnChannel(ToAbort);
        }
        return Blocked;
      }
      if Orderly() && uCS.value.commitState.NoCommit? {
        NobodyElse(uCS.value, timers, calls, used, resolved, torn);
        TearDownOrderly(uCS.value, timers, calls, used, resolved, torn);
      }
      var _, e := DeleteCS(uCS.value.token, unwatchOk);
      return e;
    }

    /** Kill, up to where it has to wait. During a rollback it does nothing; a timer that is not
        there yet makes it panic as Abort does. */
    method Kill(killActive: bool, pidActive: bool, unwatchOk: bool) returns (status: Status)
      requires Valid()
      modifies this`uCS, this`calls, this`torn, this`panicked, lock`cdbLock, lock.db
      ensures Valid() && FieldStep(old(lock.db.field), lock.db.field, lock.execName)
      ensures old(Orderly()) ==> (Orderly() <==> status.Refused? || !old(TimerPending()))
      ensures status.Refused? <==> old(uCS).None? || (old(uCS).value.state.Active? && !killActive && pidActive)
      ensures panicked == (old(panicked) || (!status.Refused? && old(TimerPending())))
      ensures if status.Refused? || old(TimerPending()) then Untouched()
              else if old(uCS).value.commitState.RollbackReplace? then Untouched() && status.Success?
              else if old(uCS).value.commitState.ConfirmTimer? then status.Blocked? && NowWaits(ToKill)
              else NowGone() && status == if TxAborts(old(uCS).value, unwatchOk) then Success else Failure
    {
      if uCS.None? || (uCS.value.state.Active? && !killActive && pidActive) {
        return Refused;
      }
      if uCS.value.commitState.ConfirmTimer? {
        if uCS.value.commitCh.None? {
          panicked := true;
        } else {
          WaitOnChannel(ToKill);
        }
        return Blocked;
      }
      if uCS.value.commitState.RollbackReplace? {
        return Success;
      }
      if Orderly() {
        NobodyElse(uCS.value, timers, calls, used, resolved, torn);
        TearDownOrderly(uCS.value, timers, calls, used, resolved, torn);
      }
      var _, e := DeleteCS(uCS.value.token, unwatchOk);
      return e;
    }

    // ----- the commit channel and the timer goroutine -----

    /** A waiting call meets the goroutine at the unbuffered channel, and the goroutine ends. */
    method Rendezvous(c: nat)
      requires Valid() && c < |calls| && calls[c].Sending? && calls[c].ch < |timers|
      requires timers[calls[c].ch].phase.Waiting?
      modifies this`calls, this`timers, this`resolved
      ensures Valid() && (old(Orderly()) ==> Orderly())
      ensures resolved == old(resolved) + [Resolution(old(calls)[c].token, false)]
      ensures var call := old(calls)[c];
              && timers == old(timers)[call.ch := Timer(Finished, call.token)]
              && calls == old(calls)[c := Received(call.purpose, call.token, call.ch)]
    {
      if Orderly() {
        RendezvousOrderly(uCS, timers, calls, used, resolved, torn, c);
      }
      var call := calls[c];
      timers := timers[call.ch := Timer(Finished, call.token)];
      calls := calls[c := Received(call.purpose, call.token, call.ch)];
      resolved := resolved + [Resolution(call.token, false)];
    }

    /** The rest of a call that got through: a confirmed commit is cleaned up, an aborted one
        has its session deleted once the old configuration is back. */
    method Proceed(c: nat, reloadOk: bool) returns (status: Status)
      requires Valid() && c < |calls| && calls[c].Received?
      modifies this`uCS, this`calls, this`torn, this`panicked, lock`cdbLock, lock.db
      ensures Valid() && FieldStep(old(lock.db.field), lock.db.field, lock.execName)
      ensures old(Orderly()) ==> Orderly()
      ensures old(Orderly()) && (old(calls)[c].purpose.ToConfirm? || reloadOk) ==>
                uCS.None? && torn == old(torn) + [TearDown(old(calls)[c].token, old(calls)[c].token)]
      ensures old(Orderly()) ==> status == if old(calls)[c].purpose.ToConfirm? || reloadOk then Success else Failure
      ensures calls == old(calls)[c := Returned]
      ensures !old(calls)[c].purpose.ToConfirm? && !reloadOk ==> uCS == old(uCS) && torn == old(torn)
    {
      var call := calls[c];
      if Orderly() {
        ReceivedAlone(uCS, timers, calls, used, resolved, torn, c);
        ReturnOrderly(uCS, timers, calls, used, resolved, torn, c);
        TearDownOrderly(uCS.value, timers, calls[c := Returned], used, resolved, torn);
      }
      calls := calls[c := Returned];
      status := if call.purpose.ToConfirm? then Success else Failure;
      if call.purpose.ToConfirm? {
        CleanCS(call.token);
      } else if reloadOk {
        var _, e := DeleteCS(call.token, true);
        status := e;
      }
    }

    /** The timer expires before anyone meets the goroutine. */
    method Timeout(i: nat)
      requires Valid() && i < |timers| && timers[i].phase.Waiting?
      modifies this`uCS, this`timers, this`resolved
      ensures Valid() && (old(Orderly()) ==> Orderly())
      ensures timers == old(timers)[i := Timer(Reloading, old(timers)[i].token)]
      ensures uCS == if old(uCS).Some? then Some(old(uCS).value.(commitState := RollbackReplace)) else None
      ensures resolved == old(resolved) + [Resolution(old(timers)[i].token, true)]
    {
      if Orderly() {
        TimeoutOrderly(uCS, timers, calls, used, resolved, torn, i);
      }
      if uCS.Some? {
        uCS := Some(uCS.value.(commitState := RollbackReplace));
      }
      resolved := resolved + [Resolution(timers[i].token, true)];
      timers := timers[i := Timer(Reloading, timers[i].token)];
    }

    /** The goroutine has reloaded the old configuration and cleans up. */
    method EndReload(i: nat)
      requires Valid() && i < |timers| && timers[i].phase.Reloading?
      modifies this`uCS, this`timers, this`torn, this`panicked, lock`cdbLock, lock.db
      ensures Valid() && FieldStep(old(lock.db.field), lock.db.field, lock.execName)
      ensures old(Orderly()) ==> Orderly()
      ensures timers == old(timers)[i := Timer(Finished, old(timers)[i].token)]
      ensures uCS.None? && panicked == (old(panicked) || old(uCS).None?)
      ensures torn == if old(uCS).None? then old(torn)
                      else old(torn) + [TearDown(old(uCS).value.token, old(timers)[i].token)]
    {
      if Orderly() {
        EndReloadOrderly(uCS, timers, calls, used, resolved, torn, i);
      }
      var token := timers[i].token;
      timers := timers[i := Timer(Finished, token)];
      CleanCS(token);
    }

    /** The process dies, or panics, and starts again. */
    method Restart()
      requires Valid()
      modifies this`uCS, this`handles, this`timers, this`calls, this`panicked, lock`cdbLock, lock.db
      ensures Valid() && FieldStep(old(lock.db.field), lock.db.field, lock.execName)
      ensures old(Orderly()) ==> Orderly()
      ensures uCS.None? && handles == map[] && timers == [] && calls == [] && !panicked && lock.cdbLock.None?
    {
      if Orderly() {
        RestartOrderly(uCS, timers, calls, used, resolved, torn);
      }
      uCS, handles, timers, calls, panicked := None, map[], [], [], false;
      var _ := lock.ConfigDBClearLock();
    }

    // ----- write handles outside sessions -----

    /** NewDB: a write handle takes the lock at once, unless it is lazy. */
    method NewDB(h: nat, isWriteDisabled: bool, lazyLock: bool) returns (ok: bool)
      requires Valid() && h !in handles
      modifies this`handles, lock`cdbLock, lock.db
      ensures Valid() && FieldStep(old(lock.db.field), lock.db.field, lock.execName)
      ensures old(Orderly()) ==> Orderly()
      ensures ok ==> handles == old(handles)[h := !isWriteDisabled && !lazyLock]
      ensures isWriteDisabled || lazyLock ==> ok
      ensures lock.db.reliable && old(lock.cdbLock).None? && old(lock.db.field).None? ==> ok
      ensures !ok ==> handles == old(handles)
    {
      if !isWriteDisabled && !lazyLock {
        LockValueParts(lock.execName, NO_SESSION_TOKEN);
        var e := lock.ConfigDBTryLock(NO_SESSION_TOKEN);
        if e.Fail? {
          return false;
        }
        OwnedByHandle(handles, handles[h := true], h, lock.execName);
      } else {
        OwnedStays(lock.cdbLock, uCS, handles, handles[h := false], h);
      }
      handles := handles[h := !isWriteDisabled && !lazyLock];
      return true;
    }

    /** doWrite on a handle that may be written to: it takes the lock if it has not yet. */
    method LockToWrite(h: nat) returns (ok: bool)
      requires Valid() && h in handles
      modifies this`handles, lock`cdbLock, lock.db
      ensures Valid() && FieldStep(old(lock.db.field), lock.db.field, lock.execName)
      ensures old(Orderly()) ==> Orderly()
      ensures handles == old(handles)[h := ok]
      ensures ok ==> lock.Held() && uCS.None?
      ensures old(handles)[h] || (lock.db.reliable && old(lock.cdbLock).None? && old(lock.db.field).None?) ==> ok
    {
      if handles[h] {
        assert Places(handles, h);
        return true;
      }
      LockValueParts(lock.execName, NO_SESSION_TOKEN);
      var e := lock.ConfigDBTryLock(NO_SESSION_TOKEN);
      if e.Pass? {
        OwnedByHandle(handles, handles[h := true], h, lock.execName);
        handles := handles[h := true];
      }
      return e.Pass?;
    }

    /** DeleteDB */
    method DeleteDB(h: nat)
      requires Valid() && h in handles
      modifies this`handles, lock`cdbLock, lock.db
      ensures Valid() && FieldStep(old(lock.db.field), lock.db.field, lock.execName)
      ensures old(Orderly()) ==> Orderly()
      ensures handles == old(handles) - {h}
      ensures lock.cdbLock == if old(handles)[h] then None else old(lock.cdbLock)
      ensures old(uCS).Some? ==> !old(handles)[h]
      ensures lock.db.reliable && old(handles)[h] ==> lock.db.field.None?
    {
      if handles[h] {
        OnlyPlacer(lock.cdbLock, uCS, handles, h);
        LockValueParts(lock.execName, lock.cdbLock.value.id);
        var _ := lock.ConfigDBUnlock(NO_SESSION_TOKEN);
      } else {
        OwnedStays(lock.cdbLock, uCS, handles, handles - {h}, h);
      }
      handles := handles - {h};
    }

    // ----- runs -----

    /** One step, if it can be taken. A careful caller does not abort during a rollback, and does
        not confirm, abort or kill while a timed commit has yet to start its timer. */
    method Act(a: Action, careful: bool)
      requires Valid()
      modifies this, lock`cdbLock, lock.db
      ensures Valid() && FieldStep(old(lock.db.field), lock.db.field, lock.execName)
      ensures careful && old(Orderly()) ==> Orderly()
    {
      if panicked && !a.DoRestart? {
        return;
      }
      match a
      case DoStartOrResume(token, pidActive, txOk) =>
        if token != NO_SESSION_TOKEN && token !in used {
          var _ := StartOrResume(token, pidActive, txOk);
        }
      case DoExit(token) =>
        var _ := Exit(token);
      case DoCommit(token, withTimer, confirm, saveOk, txOk) =>
        if !(careful && confirm && TimerPending()) {
          var _ := Commit(token, withTimer, confirm, saveOk, txOk);
        }
      case DoAbort(token, unwatchOk) =>
        if !(careful && (TimerPending() || (uCS.Some? && uCS.value.commitState.RollbackReplace?))) {
          var _ := Abort(token, unwatchOk);
        }
      case DoKill(killActive, pidActive, unwatchOk) =>
        if !(careful && TimerPending()) {
          var _ := Kill(killActive, pidActive, unwatchOk);
        }
      case DoRestart =>
        Restart();
      case _ =>
        ActInBackground(a);
    }

    method ActInBackground(a: Action)
      requires Valid()
      modifies this, lock`cdbLock, lock.db
      ensures Valid() && FieldStep(old(lock.db.field), lock.db.field, lock.execName)
      ensures old(Orderly()) ==> Orderly()
    {
      match a
      case DoStartTimer(c) =>
        if c < |calls| && calls[c].Starting? {
          var _ := ProcessCommitTimer(c);
        }
      case DoRendezvous(c) =>
        if c < |calls| && calls[c].Sending? && calls[c].ch < |timers| && timers[calls[c].ch].phase.Waiting? {
          Rendezvous(c);
        }
      case DoProceed(c, reloadOk) =>
        if c < |calls| && calls[c].Received? {
          var _ := Proceed(c, reloadOk);
        }
      case DoTimeout(i) =>
        if i < |timers| && timers[i].phase.Waiting? {
          Timeout(i);
        }
      case DoEndReload(i) =>
        if i < |timers| && timers[i].phase.Reloading? {
          EndReload(i);
        }
      case DoNewDB(h, isWriteDisabled, lazyLock) =>
        if h !in handles {
          var _ := NewDB(h, isWriteDisabled, lazyLock);
        }
      case DoLockToWrite(h) =>
        if h in handles {
          var _ := LockToWrite(h);
        }
      case DoDeleteDB(h) =>
        if h in handles {
          DeleteDB(h);
        }
      case _ =>
    }
  }

  /** The steps of a process: API calls, what they wait for, the timer goroutine, the handles
      of other requests, and the end of the process. */
  datatype Action =
    | DoStartOrResume(token: string, pidActive: bool, txOk: bool)
    | DoExit(token: string)
    | DoCommit(token: string, withTimer: bool, confirm: bool, saveOk: bool, txOk: bool)
    | DoAbort(token: string, unwatchOk: bool)
    | DoKill(killActive: bool, pidActive: bool, unwatchOk: bool)
    | DoStartTimer(c: nat)
    | DoRendezvous(c: nat)
    | DoProceed(c: nat, reloadOk: bool)
    | DoTimeout(i: nat)
    | DoEndReload(i: nat)
    | DoNewDB(h: nat, isWriteDisabled: bool, lazyLock: bool)
    | DoLockToWrite(h: nat)
    | DoDeleteDB(h: nat)
    | DoRestart

  /** Processes with different names around one STATE_DB. */
  ghost predicate Apart(servers: seq<Server>, db: StateDB) {
    && (forall i :: 0 <= i < |servers| ==> servers[i].lock.db == db)
    && forall i, j :: 0 <= i < j < |servers| ==>
         && servers[i] != servers[j] && servers[i].lock != servers[j].lock
         && servers[i].lock.execName != servers[j].lock.execName
  }

  function Locks(servers: seq<Server>): set<DbLock> {
    set s | s in servers :: s.lock
  }

  ghost predicate AllValid(servers: seq<Server>, db: StateDB)
    reads servers, Locks(servers), db
  {
    Apart(servers, db) && forall i :: 0 <= i < |servers| ==> servers[i].Valid()
  }

  /** What one process does leaves the locks of the others alone. */
  lemma StepKeepsOthers(before: Option<string>, after: Option<string>, comm: string, other: string, id: string)
    requires FieldStep(before, after, comm) && ExecName(comm) && ExecName(other) && comm != other
    requires before == Some(LockValue(other, id))
    ensures after == before
  {
    LockValueParts(other, id);
  }

  method StepOf(servers: seq<Server>, db: StateDB, n: nat, a: Action, careful: bool)
    requires AllValid(servers, db) && n < |servers|
    modifies servers[n], servers[n].lock`cdbLock, db
    ensures AllValid(servers, db)
    ensures careful && old(servers[n].Orderly()) ==> servers[n].Orderly()
  {
    servers[n].Act(a, careful);
    forall i | 0 <= i < |servers| && i != n
      ensures servers[i].Valid()
    {
      if servers[i].lock.Held() {
        StepKeepsOthers(old(db.field), db.field, servers[n].lock.execName, servers[i].lock.execName,
                        servers[i].lock.cdbLock.value.id);
      }
    }
  }

  /** Any interleaving of any steps of any number of processes. */
  method Run(servers: seq<Server>, db: StateDB, steps: seq<(nat, Action)>, careful: bool)
    requires AllValid(servers, db)
    modifies servers, Locks(servers), db
    ensures AllValid(servers, db)
    ensures careful && old(forall i :: 0 <= i < |servers| ==> servers[i].Orderly()) ==>
              forall i :: 0 <= i < |servers| ==> servers[i].Orderly()
  {
    for k := 0 to |steps|
      invariant AllValid(servers, db)
      invariant careful && old(forall i :: 0 <= i < |servers| ==> servers[i].Orderly()) ==>
                  forall i :: 0 <= i < |servers| ==> servers[i].Orderly()
    {
      if steps[k].0 < |servers| {
        StepOf(servers, db, steps[k].0, steps[k].1, careful);
      }
    }
  }

  /** What the invariant says: at most one process holds the lock, and the shared field names it
      and its owner, which is an open session or one write handle, and never both. */
  lemma LockIsExclusive(servers: seq<Server>, db: StateDB, i: nat, j: nat)
    requires AllValid(servers, db) && i < |servers| && j < |servers|
    ensures servers[i].lock.Held() && servers[j].lock.Held() ==> i == j
    ensures servers[i].uCS.Some? ==>
              && db.field == Some(LockValue(servers[i].lock.execName, servers[i].uCS.value.token))
              && forall h :: !Places(servers[j].handles, h)
    ensures servers[i].uCS.Some? && servers[j].uCS.Some? ==> i == j
  {
    if servers[i].lock.Held() && servers[j].lock.Held() {
      OneHolder(servers[i].lock, servers[j].lock);
    }
  }

  /** What the logs of an orderly process say: a commit that awaited confirmation was resolved
      once, by a call or by its timer, and a session was torn down once, by an actor of its own. */
  lemma AtMostOnce(s: Server)
    requires s.Orderly()
    ensures forall i, j :: 0 <= i < j < |s.resolved| ==> s.resolved[i].token != s.resolved[j].token
    ensures forall i, j :: 0 <= i < j < |s.torn| ==> s.torn[i].token != s.torn[j].token
    ensures forall i :: 0 <= i < |s.torn| ==> s.torn[i].meant == s.torn[i].token
  {
    assert forall i :: 0 <= i < |s.resolved| ==> Resolved(s.resolved)[i] == s.resolved[i].token;
    assert forall i :: 0 <= i < |s.torn| ==> Torn(s.torn)[i] == s.torn[i].token;
  }

  /** Abort during a rollback: when the goroutine then comes to its end, the process panics. If
      a new session has started in between, that session is torn down instead of its own. */
  method AbortDuringRollback(s: Server, i: nat, token: string, restarted: bool) returns (started: bool)
    requires s.Valid() && s.Orderly() && i < |s.timers| && s.timers[i].phase.Reloading? && s.uCS.value.state.Active?
    requires token != NO_SESSION_TOKEN && token !in s.used
    modifies s, s.lock`cdbLock, s.lock.db
    ensures started ==> restarted
    ensures s.uCS.None? && s.panicked == !started
    ensures var own := old(s.timers)[i].token;
            s.torn == old(s.torn) + [TearDown(own, own)] + if started then [TearDown(token, own)] else []
  {
    var _ := s.Abort(s.timers[i].token, true);
    started := false;
    if restarted {
      var status := s.StartOrResume(token, false, true);
      started := status.Success?;
    }
    s.EndReload(i);
  }
}
