/** The lock on CONFIG_DB that the translib processes share (translib/db/db_lock.go): one hash
    field of STATE_DB, and in every process the global cdbLock. */
module ConfigLock {
  import opened Wrappers

  const NO_SESSION_TOKEN := "0-0"
  const TRY_LOCK_ATTEMPT: nat := 4

  datatype LockType = DBLockGeneric | DBLockConfigSession

  datatype Error = NotSupported | Unavailable | DBLock(lockType: LockType)

  datatype Outcome = Pass | Fail(error: Error)

  /** What tryLock writes into the lock field. */
  function LockValue(comm: string, id: string): string {
    comm + ":" + id
  }

  /** string.find(value, ':'), or the length when there is none. */
  function Colon(value: string): (i: nat)
    ensures i <= |value| && (forall j :: 0 <= j < i ==> value[j] != ':')
    ensures i < |value| ==> value[i] == ':'
  {
    if value == "" || value[0] == ':' then 0 else 1 + Colon(value[1..])
  }

  function CommOf(value: string): string {
    value[..Colon(value)]
  }

  function IdOf(value: string): string {
    if Colon(value) < |value| then value[Colon(value) + 1..] else ""
  }

  /** The value is read back as it was put together exactly when the name has no colon. */
  lemma LockValueParts(comm: string, id: string)
    ensures CommOf(LockValue(comm, id)) == comm && IdOf(LockValue(comm, id)) == id <==> ':' !in comm
  {
    var value := LockValue(comm, id);
    assert value[|comm|] == ':';
    assert forall j :: 0 <= j < |comm| ==> value[j] == comm[j];
    if ':' !in comm {
      assert Colon(value) == |comm|;
      assert value[..|comm|] == comm && value[|comm| + 1..] == id;
    } else {
      assert forall c :: c in CommOf(value) ==> c != ':';
    }
  }

  /** Does the unlock script delete the field? Either argument may be the wildcard. */
  predicate ScriptMatches(value: string, comm: string, id: string) {
    (comm == "*" || comm == CommOf(value)) && (id == "*" || id == IdOf(value))
  }

  /** Names under which processes can share the lock. */
  predicate ExecName(comm: string) {
    ':' !in comm && comm != "*"
  }

  /** The script never deletes a lock that was placed under another name. */
  lemma ForeignLockStays(comm: string, id: string, other: string, otherId: string)
    requires ExecName(comm) && ExecName(other) && comm != other
    ensures !ScriptMatches(LockValue(other, otherId), comm, id)
  {
    LockValueParts(other, otherId);
  }

  /** STATE_DB. Unless it is reliable, any command may fail, with or without having taken effect. */
  class StateDB {
    const reliable: bool
    var field: Option<string>

    constructor (reliable: bool)
      ensures this.reliable == reliable && field.None?
    {
      this.reliable, field := reliable, None;
    }

    method HSetNX(value: string) returns (set_: bool, ok: bool)
      modifies this
      ensures field == old(field) || (old(field).None? && field == Some(value))
      ensures ok ==> set_ == old(field).None? && (set_ ==> field == Some(value))
      ensures reliable ==> ok
    {
      ok :| reliable ==> ok;
      set_ := field.None?;
      var done := *;
      if set_ && (ok || done) {
        field := Some(value);
      }
    }

    method HGet() returns (value: Option<string>, ok: bool)
      ensures ok ==> value == field
      ensures reliable ==> ok
    {
      ok :| reliable ==> ok;
      value := field;
    }

    method RunUnlockScript(comm: string, id: string) returns (deleted: bool, ok: bool)
      modifies this
      ensures field == old(field) || (field.None? && old(field).Some? && ScriptMatches(old(field).value, comm, id))
      ensures ok ==>
                && deleted == (old(field).Some? && ScriptMatches(old(field).value, comm, id))
                && field == if deleted then None else old(field)
      ensures reliable ==> ok
    {
      ok :| reliable ==> ok;
      deleted := field.Some? && ScriptMatches(field.value, comm, id);
      var done := *;
      if deleted && (ok || done) {
        field := None;
      }
    }
  }

  datatype LockStruct = LockStruct(id: string, comm: string, locked: bool)

  function LockTypeOf(id: string): LockType {
    if id != "" && id != NO_SESSION_TOKEN then DBLockConfigSession else DBLockGeneric
  }

  /** The lock globals of one process. */
  class DbLock {
    const db: StateDB
    const execName: string
    var cdbLock: Option<LockStruct>

    /** A process starts by clearing the lock that an earlier run under its name left behind. */
    constructor (db: StateDB, execName: string)
      modifies db
      ensures this.db == db && this.execName == execName && cdbLock.None?
      ensures ExecName(execName) ==> db.field == old(db.field) || (db.field.None? && OwnField(old(db.field), execName))
    {
      this.db, this.execName, cdbLock := db, execName, None;
      new;
      var _ := ConfigDBClearLock();
    }

    predicate Held()
      reads this`cdbLock
    {
      cdbLock.Some?
    }

    /** A held lock is the one in the shared field. */
    predicate Matches()
      reads this, db
    {
      cdbLock.Some? ==>
        && cdbLock.value.locked && cdbLock.value.comm == execName
        && db.field == Some(LockValue(execName, cdbLock.value.id))
    }

    /** tryLock on a new lock structure. */
    method TryLock(id: string) returns (lt: LockStruct, e: Outcome)
      requires cdbLock.None?
      modifies db
      ensures e.Pass? ==>
                lt == LockStruct(id, execName, true) && old(db.field).None? && db.field == Some(LockValue(execName, id))
      ensures db.field == old(db.field) || (old(db.field).None? && db.field == Some(LockValue(execName, id)))
      ensures db.reliable && old(db.field).None? ==> e.Pass?
    {
      lt := LockStruct(id, execName, false);
      var set_, ok := db.HSetNX(LockValue(execName, id));
      if !ok {
        return lt, Fail(Unavailable);
      }
      if !set_ {
        var lockType := DbLockedError(lt, true);
        return lt, Fail(DBLock(lockType));
      }
      return lt.(locked := true), Pass;
    }

    /** dbLockedError: a lock is a session's when its id says so; doubt makes it generic. */
    method DbLockedError(lt: LockStruct, connected: bool) returns (lockType: LockType)
      ensures lt.locked ==> lockType == LockTypeOf(lt.id)
      ensures !lt.locked && lockType.DBLockConfigSession? ==>
                connected && db.field.Some? && LockTypeOf(IdOf(db.field.value)) == lockType
      ensures !lt.locked && connected && db.reliable && db.field.Some? && ':' in db.field.value ==>
                lockType == LockTypeOf(IdOf(db.field.value))
    {
      var lockId := "";
      if lt.locked {
        lockId := lt.id;
      } else if connected {
        var value, ok := db.HGet();
        if ok && value.Some? && ':' in value.value {
          lockId := IdOf(value.value);
        }
      }
      lockType := LockTypeOf(lockId);
    }

    /** unlock */
    method Unlock(lt: LockStruct) returns (e: Outcome)
      modifies db
      ensures !lt.locked ==> e == Fail(NotSupported) && db.field == old(db.field)
      ensures db.field == old(db.field)
              || (db.field.None? && old(db.field).Some? && ScriptMatches(old(db.field).value, lt.comm, lt.id))
      ensures e.Pass? ==> db.field.None? && old(db.field).Some? && ScriptMatches(old(db.field).value, lt.comm, lt.id)
      ensures db.reliable && lt.locked ==>
                && (e.Pass? <==> old(db.field).Some? && ScriptMatches(old(db.field).value, lt.comm, lt.id))
                && (e.Fail? ==> e.error.DBLock?)
      ensures e.Fail? && e.error.DBLock? ==> db.field.None? || !ScriptMatches(db.field.value, lt.comm, lt.id)
    {
      if !lt.locked {
        return Fail(NotSupported);
      }
      var deleted, ok := db.RunUnlockScript(lt.comm, lt.id);
      if !ok {
        return Fail(Unavailable);
      }
      return if deleted then Pass else Fail(DBLock(DBLockGeneric));
    }

    /** ConfigDBTryLock: up to four attempts, unless a session holds the lock. */
    method ConfigDBTryLock(token: string) returns (e: Outcome)
      requires Matches()
      modifies this`cdbLock, db
      ensures Matches()
      ensures old(Held()) ==>
                && e == Fail(DBLock(LockTypeOf(old(cdbLock).value.id)))
                && cdbLock == old(cdbLock) && db.field == old(db.field)
      ensures e.Pass? ==>
                && old(cdbLock).None? && old(db.field).None?
                && cdbLock == Some(LockStruct(token, execName, true))
      ensures e.Fail? ==> cdbLock == old(cdbLock)
      ensures db.field == old(db.field) || (old(db.field).None? && db.field == Some(LockValue(execName, token)))
      ensures old(db.field).Some? ==> e.Fail? && db.field == old(db.field)
      ensures db.reliable ==> (e.Pass? <==> old(cdbLock).None? && old(db.field).None?)
    {
      if cdbLock.Some? {
        var lockType := DbLockedError(cdbLock.value, false);
        return Fail(DBLock(lockType));
      }
      var attempts := 0;
      e := Fail(Unavailable);
      while attempts < TRY_LOCK_ATTEMPT
        invariant cdbLock == old(cdbLock) && e.Fail?
        invariant db.field == old(db.field) || (old(db.field).None? && db.field == Some(LockValue(execName, token)))
        invariant db.reliable && old(db.field).None? ==> attempts == 0 && db.field.None?
      {
        var ls;
        ls, e := TryLock(token);
        if e.Pass? {
          cdbLock := Some(ls);
          return;
        }
        if e.error == DBLock(DBLockConfigSession) {
          return;
        }
        attempts := attempts + 1;
      }
    }

    /** ConfigDBUnlock. The token is not looked at; the global is cleared in any case. */
    method ConfigDBUnlock(token: string) returns (e: Outcome)
      requires Matches()
      modifies this`cdbLock, db
      ensures cdbLock.None? && Matches()
      ensures old(cdbLock).None? ==> e.Fail? && db.field == old(db.field)
      ensures e.Pass? ==> db.field.None?
      ensures db.field == old(db.field) || (db.field.None? && old(Held()))
      ensures db.reliable && ExecName(execName) && old(Held()) ==> e.Pass?
    {
      if cdbLock.None? {
        return Fail(DBLock(DBLockGeneric));
      }
      LockValueParts(execName, cdbLock.value.id);
      e := Unlock(cdbLock.value);
      cdbLock := None;
    }

    /** ConfigDBClearLock */
    method ConfigDBClearLock() returns (e: Outcome)
      modifies this`cdbLock, db
      ensures cdbLock.None?
      ensures db.field == old(db.field) || (db.field.None? && OwnField(old(db.field), execName))
      ensures e.Pass? ==> !OwnField(db.field, execName)
      ensures db.reliable ==> e.Pass?
    {
      e := Unlock(LockStruct("*", execName, true));
      cdbLock := None;
      if e.Fail? && e.error.DBLock? {
        e := Pass;
      }
    }
  }

  /** The field, if set, was set under this name. */
  predicate OwnField(field: Option<string>, comm: string) {
    field.Some? && (comm == "*" || CommOf(field.value) == comm)
  }

  /** Two processes cannot hold the lock at once. */
  lemma OneHolder(a: DbLock, b: DbLock)
    requires a.db == b.db && a.Matches() && b.Matches() && a.Held() && b.Held()
    requires ExecName(a.execName) && ExecName(b.execName)
    ensures a.execName == b.execName && a.cdbLock == b.cdbLock
  {
    LockValueParts(a.execName, a.cdbLock.value.id);
    LockValueParts(b.execName, b.cdbLock.value.id);
  }
}
