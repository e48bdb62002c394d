/** The write-enabled CONFIG_DB handle of translib/db: transactions, the overlay, and the
    savepoint that gives a config session nested transactions. */
module ConfigDB {
  import opened Wrappers
  import opened Redis
  import opened Keys
  import opened Overlay

  datatype Options = Options(isWriteDisabled: bool, isSession: bool, disableCVLCheck: bool, txCmdsLim: nat)

  datatype TxState = TxNone | TxWatch | TxSet | TxMultiExec

  datatype Error =
    | WriteDisabled | TxCmdsLimit | BadTxState | BadArguments | CVLFailure
    | EntryNotExist | RedisFailure | InvalidSession | NotSupported | TransactionFail

  datatype Outcome = Pass | Fail(error: Error)

  /** The write calls of the API. */
  datatype Request =
    | CreateEntry(ts: TableSpec, key: Key, value: Hash)
    | SetEntry(ts: TableSpec, key: Key, value: Hash)
    | ModEntry(ts: TableSpec, key: Key, value: Hash)
    | DeleteEntry(ts: TableSpec, key: Key)
    | DeleteEntryFields(ts: TableSpec, key: Key, value: Hash)

  predicate GoodRequest(r: Request) {
    GoodKey(r.ts, r.key) && (r.DeleteEntryFields? ==> r.value != map[])
  }

  /** What a successful call means for the rows a client can see. */
  function Meaning(r: Request, s: Store): Store {
    var k := Key2Redis(r.ts, r.key);
    match r
    case DeleteEntry(_, _) => s - {k}
    case DeleteEntryFields(_, _, value) => Put(s, k, HashAt(s, k) - value.Keys)
    case SetEntry(ts, _, value) => if value != map[] then s[k := value] else if ts.noDelete then s else s - {k}
    case CreateEntry(ts, _, value) => AfterMerge(ts, k, value, s)
    case ModEntry(ts, _, value) => AfterMerge(ts, k, value, s)
  }

  function AfterMerge(ts: TableSpec, k: string, value: Hash, s: Store): Store {
    if value != map[] then s[k := HashAt(s, k) + value] else if ts.noDelete then s else s - {k}
  }

  /** SetEntry's two commands, HMSET of the value and HDEL of the fields it lacks, replace the row. */
  lemma MergeThenTrim(s: Store, k: string, value: Hash)
    requires Compact(s) && value != map[]
    ensures var merged := Exec(s, HMSet(k, value));
            && (HashAt(s, k).Keys <= value.Keys ==> merged == s[k := value])
            && Exec(merged, HDel(k, HashAt(s, k).Keys - value.Keys)) == s[k := value]
  {
    var h := HashAt(s, k);
    assert h + value != map[] by {
      var f :| f in value;
      assert f in h + value;
    }
    if h.Keys <= value.Keys {
      assert h + value == value;
    }
    assert (h + value) - (h.Keys - value.Keys) == value;
  }

  lemma SetMeaning(s: Store, ts: TableSpec, key: Key, value: Hash, complement: set<string>, isCreate: bool)
    requires Compact(s) && value != map[]
    requires complement == if isCreate then {} else HashAt(s, Key2Redis(ts, key)).Keys - value.Keys
    ensures var k := Key2Redis(ts, key);
            var merged := Exec(s, HMSet(k, value));
            Meaning(SetRequest(ts, key, value, isCreate), s) ==
            if complement == {} then merged else Exec(merged, HDel(k, complement))
  {
    MergeThenTrim(s, Key2Redis(ts, key), value);
  }

  function SetRequest(ts: TableSpec, key: Key, value: Hash, merges: bool): Request {
    if merges then CreateEntry(ts, key, value) else SetEntry(ts, key, value)
  }

  predicate ActsFor(acted: Request, r: Request, reliable: bool) {
    acted == r || (!reliable && r.SetEntry? && acted == CreateEntry(r.ts, r.key, r.value))
  }

  /** When merging the new value into the row is as good as replacing the row. */
  lemma MergeReplaces(s: Store, ts: TableSpec, key: Key, value: Hash)
    requires Compact(s)
    ensures Meaning(CreateEntry(ts, key, value), s) == Meaning(SetEntry(ts, key, value), s) <==>
            value == map[] || HashAt(s, Key2Redis(ts, key)).Keys <= value.Keys
  {
    var k := Key2Redis(ts, key);
    var merged := HashAt(s, k) + value;
    if value != map[] {
      assert s[k := merged][k] == merged && s[k := value][k] == value;
      assert merged == value <==> HashAt(s, k).Keys <= value.Keys by {
        assert merged.Keys == HashAt(s, k).Keys + value.Keys;
      }
    }
  }

  function Edits(vType: VType, ops: seq<VOp>, k: string, vals: seq<Hash>): (es: seq<CVLEdit>)
    requires |ops| == |vals|
    ensures |es| == |ops|
  {
    seq(|ops|, i requires 0 <= i < |ops| => CVLEdit(vType, ops[i], k, vals[i]))
  }

  /** The string key that flags a table as updated. */
  function UpdatedFlag(table: string): string {
    if '*' in table then "CONFIG_DB_UPDATED" else "CONFIG_DB_UPDATED_" + table
  }

  ghost predicate GoodStore(s: Store) {
    Compact(s) && forall k :: k in s ==> RowKey(k)
  }

  lemma ExecGood(s: Store, c: TxCmd)
    requires GoodStore(s) && GoodCmd(c)
    ensures GoodStore(Exec(s, Wire(c)))
  {
    TableOfKey(c.ts, c.key);
  }

  lemma {:induction false} VisibleGood(s: Store, cs: seq<TxCmd>)
    requires GoodStore(s) && forall i :: 0 <= i < |cs| ==> GoodCmd(cs[i])
    ensures GoodStore(Replay(s, Wires(cs)))
    decreases |cs|
  {
    if cs != [] {
      var init, last := cs[..|cs| - 1], cs[|cs| - 1];
      VisibleGood(s, init);
      WiresAppend(init, last);
      ReplayLast(s, Wires(init), Wire(last));
      ExecGood(Replay(s, Wires(init)), last);
      assert init + [last] == cs;
    }
  }

  class DB {
    const client: Client
    const opts: Options
    const acceptsAll: bool                 // a validator that never objects; otherwise it does as it likes
    var txState: TxState
    var txCmds: seq<TxCmd>
    var txTsEntryMap: Tables<Hash>
    var txTsEntryHGetAll: Tables<Hash>
    var cvOpen: bool                       // the validation session
    var cvlEditConfigData: seq<CVLEdit>
    var err: Outcome                       // a failed rollback, kept for good
    var savePoint: Option<SavePoint>

    constructor (client: Client, opts: Options, acceptsAll: bool)
      requires GoodStore(client.store) && !client.inMulti
      ensures Valid() && InStep() && this.client == client && this.opts == opts && this.acceptsAll == acceptsAll
      ensures txState.TxNone? && savePoint.None? && err.Pass? && Visible() == client.store
    {
      this.client, this.opts, this.acceptsAll := client, opts, acceptsAll;
      txState, txCmds, cvlEditConfigData := TxNone, [], [];
      txTsEntryMap, txTsEntryHGetAll := map[], map[];
      cvOpen, err, savePoint := false, Pass, None;
    }

    // ----- invariants -----

    predicate InTx()
      reads this
    {
      txState == TxWatch || txState == TxSet
    }

    /** Are edits being logged for the validator? */
    predicate Logging()
      reads this
    {
      !txState.TxNone? && !opts.disableCVLCheck
    }

    ghost predicate WellFormed()
      reads this
    {
      // In particular, saved bases never outgrow the overlay, so reloading them finds the table.
      && CachesGood(txTsEntryMap, txTsEntryHGetAll, txCmds)
      && EditKeysGood(cvlEditConfigData)
      && WithinLogs(savePoint, |txCmds|, |cvlEditConfigData|)
      && (savePoint.Some? ==> opts.isSession)
      && (txState.TxNone? ==>
            txCmds == [] && cvlEditConfigData == [] && txTsEntryMap == map[] && txTsEntryHGetAll == map[])
      && (opts.disableCVLCheck ==> cvlEditConfigData == [])
      && (err.Fail? ==> err.error.CVLFailure?)
    }

    /** What holds even after a read failed inside a write. */
    ghost predicate Sound()
      reads this, client
    {
      && GoodStore(client.store) && !client.inMulti
      && WellFormed()
      && (err.Pass? ==>
            && Covered(txTsEntryMap, txTsEntryHGetAll)
            && BasesTrue(Base(), txTsEntryHGetAll)
            && AllValidated(cvlEditConfigData)
            && (!txState.TxNone? ==> cvOpen))
    }

    /** Reads see the pending commands. */
    ghost predicate Truthful()
      reads this, client
    {
      err.Pass? ==> Tracks(Base(), txTsEntryMap, Wires(txCmds))
    }

    ghost predicate Valid()
      reads this, client
    {
      Sound() && Truthful()
    }

    /** The store this handle builds on: without the rows that it failed to read inside a savepoint. */
    ghost function Base(): Store
      reads this, client
    {
      Believed(client.store, txTsEntryHGetAll)
    }

    /** The rows a client of this handle sees, with all pending commands replayed. */
    ghost function Visible(): Store
      reads this, client
    {
      Replay(Base(), Wires(txCmds))
    }

    /** The rows that a commit would leave. */
    ghost function Promised(): Store
      reads this, client
    {
      Replay(client.store, Wires(txCmds))
    }

    /** A read of row k that sees the rows of s: "not found" stands for the row without fields. */
    static predicate Reads(s: Store, k: string, v: Hash, e: Outcome) {
      v == HashAt(s, k) && e == if k in s then Pass else Fail(EntryNotExist)
    }

    /** A read that failed: the overlay could not answer, and the server did not. */
    predicate ReadFailed(k: string, v: Hash, e: Outcome)
      reads this`txTsEntryMap
    {
      e == Fail(RedisFailure) && v == map[] && !Has(txTsEntryMap, k) && !client.reliable
    }

    /** The edit log and the command queue say the same, entry by entry. */
    ghost predicate InStep()
      reads this
    {
      Logging() ==> EditCommands(cvlEditConfigData) == Wires(txCmds)
    }

    /** The rows that were visible when the savepoint was declared. */
    ghost function AtSavePoint(): Store
      requires savePoint.Some? && WellFormed()
      reads this, client
    {
      Replay(Base(), Wires(txCmds)[..savePoint.value.txCmdsLen])
    }

    /** Can the savepoint be rolled back? */
    ghost predicate Rewindable()
      reads this, client
    {
      && err.Pass? && opts.isSession && InTx() && Logging() && cvOpen
      && CanRewind(Base(), txTsEntryMap, txTsEntryHGetAll, Wires(txCmds), cvlEditConfigData, savePoint)
    }

    /** Nothing stands in the way of writes: no sticky error, no objections, no limit, and a server. */
    predicate Smooth()
      reads this`err, this`txState
    {
      && acceptsAll && err.Pass? && !opts.isWriteDisabled && client.reliable && !txState.TxMultiExec?
      && (opts.isSession ==> opts.txCmdsLim == 0)
    }

    /** Unless a read failed inside a transaction. */
    twostate predicate Unspoiled(e: Outcome)
      reads this
    {
      e != Fail(RedisFailure) || old(txState).TxNone?
    }

    /** What every write of row k keeps, whatever its outcome. */
    twostate predicate WriteFrame(k: string, e: Outcome)
      reads this, client
    {
      && Sound()
      && (old(Truthful()) && Unspoiled(e) ==> Truthful())
      && err == old(err) && cvOpen == old(cvOpen)
      && (old(txState) != TxWatch ==> txState == old(txState))
      && (old(txState) == TxWatch ==> InTx())
      && (!old(txState).TxNone? ==>
            && client.store == old(client.store)
            && (Base() == old(Base()) || (e == Fail(RedisFailure) && Base() == old(Base()) - {k})))
      && old(txCmds) <= txCmds
      && (savePoint.Some? <==> old(savePoint).Some?)
      && (savePoint.Some? ==>
            && savePoint.value.txCmdsLen == old(savePoint).value.txCmdsLen
            && savePoint.value.cECDLen == old(savePoint).value.cECDLen)
      && (old(Rewindable()) && savePoint.Some? ==> Rewindable())
    }

    // ----- validation -----

    /** The validator accepts or rejects; it may read through the handle while it decides. It is
        asked about the last n edits, and has been asked about all others before. */
    method ValidateEditConfig(edits: seq<CVLEdit>, ghost n: nat) returns (ok: bool)
      requires cvOpen && n <= |edits|
      requires forall i :: 0 <= i < |edits| ==> (edits[i].vType.ValidateAll? <==> i >= |edits| - n)
      ensures acceptsAll ==> ok
    {
      ok :| acceptsAll ==> ok;
    }

    method ValidationSessOpen() returns (ok: bool)
      ensures acceptsAll ==> ok
    {
      ok :| acceptsAll ==> ok;
    }

    method ValidationSessClose() returns (ok: bool)
      ensures acceptsAll ==> ok
    {
      ok :| acceptsAll ==> ok;
    }

    method LogEdits(cvlOps: seq<VOp>, k: string, vals: seq<Hash>)
      requires |cvlOps| == |vals|
      modifies this`cvlEditConfigData
      ensures cvlEditConfigData == old(cvlEditConfigData) + Edits(ValidateAll, cvlOps, k, vals)
    {
      ghost var logged := cvlEditConfigData;
      ghost var added := Edits(ValidateAll, cvlOps, k, vals);
      for i := 0 to |cvlOps|
        invariant cvlEditConfigData == logged + added[..i]
      {
        cvlEditConfigData := cvlEditConfigData + [CVLEdit(ValidateAll, cvlOps[i], k, vals[i])];
        assert added[..i + 1] == added[..i] + [added[i]];
      }
      assert added[..|cvlOps|] == added;
    }

    method MarkValidated(ghost logged: seq<CVLEdit>, cvlOps: seq<VOp>, k: string, vals: seq<Hash>)
      requires |cvlOps| == |vals|
      requires cvlEditConfigData == logged + Edits(ValidateAll, cvlOps, k, vals)
      modifies this`cvlEditConfigData
      ensures cvlEditConfigData == logged + Edits(ValidateNone, cvlOps, k, vals)
    {
      ghost var open, done := Edits(ValidateAll, cvlOps, k, vals), Edits(ValidateNone, cvlOps, k, vals);
      for i := 0 to |cvlOps|
        invariant cvlEditConfigData == logged + open[..|cvlOps| - i] + done[|cvlOps| - i..]
      {
        var last := |cvlEditConfigData| - 1 - i;
        cvlEditConfigData := cvlEditConfigData[last := cvlEditConfigData[last].(vType := ValidateNone)];
      }
    }

    /** doCVL: log the edits, have them validated, and drop them again when rejected. */
    method DoCVL(ts: TableSpec, cvlOps: seq<VOp>, key: Key, vals: seq<Hash>) returns (e: Outcome)
      requires Sound() && GoodKey(ts, key)
      modifies this`cvlEditConfigData
      ensures Sound() && (old(Truthful()) ==> Truthful())
      ensures err.Fail? ==> e == err
      ensures |cvlOps| != |vals| && Logging() ==> e.Fail?
      ensures err.Pass? && |cvlOps| == |vals| && (acceptsAll || !Logging()) ==> e.Pass?
      ensures e.Fail? ==> e == Fail(CVLFailure) || (|cvlOps| != |vals| && e == Fail(BadArguments))
      ensures old(Rewindable()) && savePoint.Some? ==> Rewindable()
      ensures e.Fail? ==> cvlEditConfigData == old(cvlEditConfigData)
      ensures e.Pass? && !Logging() ==> cvlEditConfigData == old(cvlEditConfigData)
      ensures e.Pass? && Logging() ==>
                && |cvlOps| == |vals|
                && cvlEditConfigData ==
                   old(cvlEditConfigData) + Edits(ValidateNone, cvlOps, Key2Redis(ts, key), vals)
    {
      if err.Fail? {
        return err;
      }
      if opts.disableCVLCheck || txState.TxNone? {
        return Pass;
      }
      if |cvlOps| != |vals| {
        return Fail(BadArguments);
      }
      TableOfKey(ts, key);
      ghost var logged := cvlEditConfigData;
      ghost var n := |cvlOps|;
      LogEdits(cvlOps, Key2Redis(ts, key), vals);
      var ok := ValidateEditConfig(cvlEditConfigData, n);
      if !ok {
        cvlEditConfigData := cvlEditConfigData[..|cvlEditConfigData| - |cvlOps|];
        assert cvlEditConfigData == logged;
        return Fail(CVLFailure);
      }
      MarkValidated(logged, cvlOps, Key2Redis(ts, key), vals);
      if old(Rewindable()) && savePoint.Some? {
        MoreEditsCanRewind(Base(), txTsEntryMap, txTsEntryHGetAll, Wires(txCmds), logged, savePoint.value,
                           Edits(ValidateNone, cvlOps, Key2Redis(ts, key), vals));
      }
      return Pass;
    }

    // ----- reads -----

    /** getEntry. A client reads its own writes: unless the read fails, the answer is the row of
        the store with all pending commands replayed. */
    method GetEntry(ts: TableSpec, key: Key) returns (v: Hash, e: Outcome)
      ensures ReadFailed(Key2Redis(ts, key), v, e) ||
              (&& v == Peek(txTsEntryMap, client.store, Key2Redis(ts, key))
               && e == if v == map[] then Fail(EntryNotExist) else Pass)
      ensures Valid() && err.Pass? ==>
                ReadFailed(Key2Redis(ts, key), v, e) || Reads(Visible(), Key2Redis(ts, key), v, e)
    {
      var entry := Key2Redis(ts, key);
      if Has(txTsEntryMap, entry) {
        v, e := At(txTsEntryMap, entry), Pass;
      } else {
        var ok;
        v, ok := client.HGetAll(entry);
        e := if ok then Pass else Fail(RedisFailure);
      }
      if e.Fail? {
        v := map[];
      } else if v == map[] {
        e := Fail(EntryNotExist);
      }
      if Valid() && err.Pass? {
        PeekIsVisible(entry);
      }
    }

    lemma PeekIsVisible(k: string)
      requires Valid() && err.Pass?
      ensures Peek(txTsEntryMap, client.store, k) == HashAt(Visible(), k)
      ensures k in Visible() <==> Peek(txTsEntryMap, client.store, k) != map[]
    {
      BelievedAt(client.store, txTsEntryHGetAll);
      PeekBelieved(txTsEntryMap, client.store, txTsEntryHGetAll);
      ReplayCompact(Base(), Wires(txCmds));
    }

    lemma VisibleRow(k: string)
      requires Valid() && err.Pass?
      ensures k in Visible() <==> if Has(txTsEntryMap, k) then At(txTsEntryMap, k) != map[] else k in client.store
    {
      PeekIsVisible(k);
    }

    lemma RowsAreGood()
      requires Sound()
      ensures GoodStore(Visible()) && GoodStore(Promised())
    {
      BelievedAt(client.store, txTsEntryHGetAll);
      VisibleGood(Base(), txCmds);
      VisibleGood(client.store, txCmds);
    }

    // ----- writes -----

    /** doTxSPsave: record the prior overlay entry, once per savepoint. */
    method DoTxSPSave(k: string)
      modifies this`savePoint
      ensures savePoint ==
              if old(savePoint).Some? && opts.isSession
              then Some(RecordedSP(old(savePoint).value, txTsEntryMap, k))
              else old(savePoint)
    {
      if savePoint.None? || !opts.isSession {
        return;
      }
      var orig := savePoint.value.txTsOrigEntryMap;
      if Head(k) !in orig {
        orig := orig[Head(k) := map[]];
      }
      if k !in orig[Head(k)] {
        var entry := if Has(txTsEntryMap, k) then OrigEntry(At(txTsEntryMap, k), false) else OrigEntry(map[], true);
        orig := orig[Head(k) := orig[Head(k)][k := entry]];
        assert orig == Recorded(savePoint.value.txTsOrigEntryMap, txTsEntryMap, k);
        savePoint := Some(savePoint.value.(txTsOrigEntryMap := orig));
      }
    }

    /** doTxSPsaveHGetAll: keep the hash read just before the first change of a key. */
    method DoTxSPSaveHGetAll(k: string, value: Hash)
      modifies this`txTsEntryHGetAll
      ensures txTsEntryHGetAll ==
              if savePoint.Some? && opts.isSession then With(old(txTsEntryHGetAll), k, value)
              else old(txTsEntryHGetAll)
    {
      if savePoint.None? || !opts.isSession {
        return;
      }
      if Head(k) !in txTsEntryHGetAll {
        txTsEntryHGetAll := txTsEntryHGetAll[Head(k) := map[]];
      }
      txTsEntryHGetAll := txTsEntryHGetAll[Head(k) := txTsEntryHGetAll[Head(k)][k := value]];
    }

    /** How a command that starts from `base` changes the transaction caches. */
    twostate predicate CachesUpdated(c: Command, base: Hash)
      reads this
    {
      && txTsEntryMap == With(old(txTsEntryMap), c.key, Effect(base, c))
      && txTsEntryHGetAll == (
           if BaseMissing(old(txTsEntryMap), c) && old(savePoint).Some? && opts.isSession
           then With(old(txTsEntryHGetAll), c.key, base) else old(txTsEntryHGetAll))
      && savePoint == (
           if old(savePoint).Some? && opts.isSession
           then Some(RecordedSP(old(savePoint).value, old(txTsEntryMap), c.key))
           else old(savePoint))
    }

    /** The part of doWrite that changes the transaction caches. When the base of the key
        cannot be read, the caches are changed all the same, as if the key were empty. */
    method UpdateTxCache(c: TxCmd) returns (e: Outcome)
      modifies this`txTsEntryMap, this`txTsEntryHGetAll, this`savePoint
      ensures e.Pass? || (e == Fail(RedisFailure) && BaseMissing(old(txTsEntryMap), Wire(c)) && !client.reliable)
      ensures CachesUpdated(Wire(c), if e.Pass? then Peek(old(txTsEntryMap), client.store, Wire(c).key) else map[])
    {
      var entry := Key2Redis(c.ts, c.key);
      DoTxSPSave(entry);
      e := Pass;
      if c.op.TxDel? {
        txTsEntryMap := With(txTsEntryMap, entry, map[]);
        return;
      }
      if !Has(txTsEntryMap, entry) {
        var v, ok := client.HGetAll(entry);
        if !ok {
          e := Fail(RedisFailure);
        }
        WithTwice(txTsEntryMap, entry, v, Effect(v, Wire(c)));
        txTsEntryMap := With(txTsEntryMap, entry, v);
        DoTxSPSaveHGetAll(entry, v);
      }
      var h := At(txTsEntryMap, entry);
      txTsEntryMap := With(txTsEntryMap, entry, if c.op.TxHMSet? then h + c.value else h - c.value.Keys);
    }

    /** Update the caches and queue the command. */
    method QueueWrite(c: TxCmd) returns (e: Outcome)
      requires Sound() && err.Pass? && InTx() && GoodCmd(c)
      modifies this`txState, this`txCmds, this`txTsEntryMap, this`txTsEntryHGetAll, this`savePoint
      ensures txState == TxSet
      ensures e.Pass? || (e == Fail(RedisFailure) && BaseMissing(old(txTsEntryMap), Wire(c)) && !client.reliable)
      ensures txCmds == if e.Pass? then old(txCmds) + [c] else old(txCmds)
      ensures CachesUpdated(Wire(c), if e.Pass? then Peek(old(txTsEntryMap), client.store, Wire(c).key) else map[])
      ensures Sound() && Base() == if e.Pass? || txTsEntryHGetAll == old(txTsEntryHGetAll) then old(Base())
                                   else old(Base()) - {Wire(c).key}
    {
      txState := TxSet;
      e := UpdateTxCache(c);
      if e.Pass? {
        txCmds := txCmds + [c];
      }
      SoundWrite(client.store, old(txTsEntryMap), old(txTsEntryHGetAll), old(txCmds), c,
                 if e.Pass? then Peek(old(txTsEntryMap), client.store, Wire(c).key) else map[],
                 txTsEntryMap, txTsEntryHGetAll, txCmds);
    }

    /** The transaction case of doWrite. */
    method WriteTx(c: TxCmd) returns (e: Outcome)
      requires Sound() && err.Pass? && InTx() && GoodCmd(c)
      modifies this`txState, this`txCmds, this`txTsEntryMap, this`txTsEntryHGetAll, this`savePoint
      ensures txState == TxSet && (e.Pass? || e == Fail(RedisFailure))
      ensures Sound() && (e.Pass? && old(Truthful()) ==> Truthful())
      ensures e.Pass? ==> txCmds == old(txCmds) + [c] && Base() == old(Base())
      ensures e.Pass? ==>
                && Visible() == Exec(old(Visible()), Wire(c))
                && Promised() == Exec(old(Promised()), Wire(c))
      ensures old(Rewindable()) && savePoint.Some? ==> Rewindable()
      ensures e.Fail? ==>
                && !client.reliable && BaseMissing(old(txTsEntryMap), Wire(c))
                && txCmds == old(txCmds) && CachesUpdated(Wire(c), map[])
                && Base() == if old(savePoint).Some? && opts.isSession then old(Base()) - {Wire(c).key} else old(Base())
      ensures savePoint.Some? <==> old(savePoint).Some?
      ensures savePoint.Some? ==>
                && savePoint.value.txCmdsLen == old(savePoint).value.txCmdsLen
                && savePoint.value.cECDLen == old(savePoint).value.cECDLen
    {
      e := QueueWrite(c);
      ghost var overlay, bases, s, ws := old(txTsEntryMap), old(txTsEntryHGetAll), old(Base()), Wires(old(txCmds));
      PeekBelieved(overlay, client.store, bases);
      WiresAppend(old(txCmds), c);
      ReplayLast(s, ws, Wire(c));
      ReplayLast(client.store, ws, Wire(c));
      if e.Pass? && old(Truthful()) {
        TracksWrite(s, overlay, ws, Wire(c));
      }
      if old(Rewindable()) && old(savePoint).Some? {
        if e.Pass? {
          WriteCanRewind(s, overlay, bases, ws, cvlEditConfigData, old(savePoint).value, Wire(c),
                         txTsEntryMap, txTsEntryHGetAll);
        } else {
          FailedWriteCanRewind(s, overlay, bases, ws, cvlEditConfigData, old(savePoint).value, Wire(c).key,
                               Effect(map[], Wire(c)));
        }
      }
    }

    /** Outside a transaction there is no validation and no queue: the server runs the command. */
    method WriteThrough(c: TxCmd) returns (e: Outcome)
      requires Sound() && txState.TxNone? && GoodCmd(c)
      modifies client`store, client`updated
      ensures Valid()
      ensures e.Pass? || (e == Fail(RedisFailure) && !client.reliable)
      ensures client.store == if e.Pass? then Exec(old(client.store), Wire(c)) else old(client.store)
      ensures Visible() == client.store && old(Visible()) == old(client.store)
    {
      TableOfKey(c.ts, c.key);
      NothingSaved(client.store);
      var ok := client.Do(Wire(c));
      NothingSaved(client.store);
      assert Wires(txCmds) == [];
      EmptyCaches(client.store, txTsEntryMap, txTsEntryHGetAll);
      if !ok {
        return Fail(RedisFailure);
      }
      var _ := client.Set(UpdatedFlag("*"));
      return Pass;
    }

    /** Why doWrite would refuse to do anything. */
    function Refusal(): (e: Outcome)
      reads this`err, this`txState, this`txCmds
      ensures e.Fail? ==> e == err || e.error == WriteDisabled || e.error == TxCmdsLimit || e.error == BadTxState
    {
      if opts.isWriteDisabled then Fail(WriteDisabled)
      else if err.Fail? then err
      else if opts.isSession && opts.txCmdsLim != 0 && |txCmds| >= opts.txCmdsLim then Fail(TxCmdsLimit)
      else if txState.TxMultiExec? then Fail(BadTxState)
      else Pass
    }

    /** doWrite */
    method DoWrite(ts: TableSpec, op: TxOp, key: Key, val: Hash) returns (e: Outcome)
      requires Sound() && GoodCmd(TxCmd(ts, op, key, val))
      modifies this`txState, this`txCmds, this`txTsEntryMap, this`txTsEntryHGetAll, this`savePoint
      modifies client`store, client`updated
      ensures WriteFrame(Key2Redis(ts, key), e)
      ensures var c := TxCmd(ts, op, key, if op.TxDel? then map[] else val);
              && (e.Pass? ==>
                    && Visible() == Exec(old(Visible()), Wire(c))
                    && Promised() == Exec(old(Promised()), Wire(c)))
              && (e.Fail? && Unspoiled(e) ==> Visible() == old(Visible()))
              && (e == Fail(RedisFailure) ==>
                    !client.reliable && (old(txState).TxNone? || BaseMissing(old(txTsEntryMap), Wire(c))))
              && (e.Pass? ==> err.Pass?)
              && (txCmds == if e.Pass? && !old(txState).TxNone? then old(txCmds) + [c] else old(txCmds))
      ensures e.Fail? ==> client.store == old(client.store)
      ensures e == Fail(CVLFailure) ==> old(err).Fail?
      ensures opts.isWriteDisabled ==> e == Fail(WriteDisabled)
      ensures !opts.isWriteDisabled && old(err).Fail? ==> e == old(err)
      ensures e.Pass? || e == Fail(RedisFailure) <==>
                && !opts.isWriteDisabled && err.Pass? && !old(txState).TxMultiExec?
                && (opts.isSession && opts.txCmdsLim != 0 ==> |old(txCmds)| < opts.txCmdsLim)
    {
      e := Refusal();
      if e.Fail? {
        return;
      }
      e := RunOrQueue(TxCmd(ts, op, key, if op.TxDel? then map[] else val));
    }

    /** doWrite behind its checks. */
    method RunOrQueue(c: TxCmd) returns (e: Outcome)
      requires Sound() && err.Pass? && !txState.TxMultiExec? && GoodCmd(c)
      modifies this`txState, this`txCmds, this`txTsEntryMap, this`txTsEntryHGetAll, this`savePoint
      modifies client`store, client`updated
      ensures WriteFrame(Key2Redis(c.ts, c.key), e)
      ensures e.Pass? ==>
                && Visible() == Exec(old(Visible()), Wire(c))
                && Promised() == Exec(old(Promised()), Wire(c))
      ensures e.Fail? ==>
                && e == Fail(RedisFailure) && !client.reliable && client.store == old(client.store)
                && (old(txState).TxNone? ==> Visible() == old(Visible()))
                && (old(txState).TxNone? || BaseMissing(old(txTsEntryMap), Wire(c)))
      ensures txCmds == if e.Pass? && !old(txState).TxNone? then old(txCmds) + [c] else old(txCmds)
    {
      assert Wire(c).key == Key2Redis(c.ts, c.key);
      if txState.TxNone? {
        assert !Rewindable();
        e := WriteThrough(c);
      } else {
        e := WriteTx(c);
      }
    }

    // ----- the write calls -----

    /** Does a call that ended like this keep the logs in step? One that the validator rejects has
        changed nothing; one that fails later has logged edits that are not queued. */
    static predicate Harmless(e: Outcome) {
      e.Pass? || e == Fail(CVLFailure)
    }

    /** What a successful or failed write call leaves behind. */
    twostate predicate CallFrame(k: string, e: Outcome)
      reads this, client
    {
      && WriteFrame(k, e)
      && (Harmless(e) && old(InStep()) ==> InStep())
      && (e == Fail(CVLFailure) ==>
            && unchanged(`cvlEditConfigData, `txCmds, `txTsEntryMap, `txTsEntryHGetAll)
            && client.store == old(client.store))
      && (e == Fail(RedisFailure) ==> !client.reliable)
      && (old(Smooth()) ==> e.Pass? && Smooth())
    }

    /** doWrite, as the write calls see it. */
    method WriteOne(c: TxCmd) returns (e: Outcome)
      requires Sound() && GoodCmd(c) && (c.op.TxDel? ==> c.value == map[])
      modifies this`txState, this`txCmds, this`txTsEntryMap, this`txTsEntryHGetAll, this`savePoint
      modifies client`store, client`updated
      ensures WriteFrame(Key2Redis(c.ts, c.key), e) && (old(Smooth()) ==> e.Pass? && Smooth())
      ensures e.Pass? ==>
                && err.Pass? && Visible() == Exec(old(Visible()), Wire(c))
                && Promised() == Exec(old(Promised()), Wire(c))
      ensures e.Fail? ==> client.store == old(client.store) && txCmds == old(txCmds)
      ensures e == Fail(CVLFailure) ==> old(err).Fail?
      ensures (e == Fail(RedisFailure) ==> !client.reliable) && (c.op.TxDel? ==> Unspoiled(e))
      ensures txCmds == if e.Pass? && !old(txState).TxNone? then old(txCmds) + [c] else old(txCmds)
    {
      e := DoWrite(c.ts, c.op, c.key, c.value);
    }

    /** One edit validated. Logged, it puts the edit log one command ahead of the queue. */
    method ValidateOne(ts: TableSpec, vOp: VOp, ghost op: TxOp, key: Key, val: Hash) returns (e: Outcome)
      requires Sound() && GoodKey(ts, key)
      requires EditCommand(CVLEdit(ValidateNone, vOp, Key2Redis(ts, key), val)) == Wire(TxCmd(ts, op, key, val))
      modifies this`cvlEditConfigData
      ensures Sound() && (old(Truthful()) ==> Truthful())
      ensures err.Fail? ==> e == err
      ensures err.Pass? && (acceptsAll || !Logging()) ==> e.Pass?
      ensures e.Fail? ==> e == Fail(CVLFailure) && cvlEditConfigData == old(cvlEditConfigData)
      ensures e.Pass? ==> err.Pass?
      ensures old(Rewindable()) && savePoint.Some? ==> Rewindable()
      ensures e.Pass? && Logging() && old(InStep()) ==>
                EditCommands(cvlEditConfigData) == Wires(txCmds + [TxCmd(ts, op, key, val)])
    {
      e := DoCVL(ts, [vOp], key, [val]);
      if e.Pass? && Logging() && old(InStep()) {
        ghost var edit := CVLEdit(ValidateNone, vOp, Key2Redis(ts, key), val);
        assert cvlEditConfigData == old(cvlEditConfigData) + [edit];
        LogsAppend(old(cvlEditConfigData), txCmds, edit, TxCmd(ts, op, key, val));
      }
    }

    /** One edit validated, then one write: the shape of most write calls. */
    method CheckedWrite(ts: TableSpec, vOp: VOp, op: TxOp, key: Key, val: Hash) returns (e: Outcome)
      requires Sound() && GoodCmd(TxCmd(ts, op, key, val)) && (op.TxDel? ==> val == map[])
      requires EditCommand(CVLEdit(ValidateNone, vOp, Key2Redis(ts, key), val)) == Wire(TxCmd(ts, op, key, val))
      modifies this`txState, this`txCmds, this`txTsEntryMap, this`txTsEntryHGetAll, this`savePoint
      modifies this`cvlEditConfigData, client`store, client`updated
      ensures CallFrame(Key2Redis(ts, key), e) && (e.Pass? ==> err.Pass?)
      ensures e.Pass? ==> Visible() == Exec(old(Visible()), Wire(TxCmd(ts, op, key, val)))
      ensures e.Fail? ==> client.store == old(client.store) && txCmds == old(txCmds)
      ensures op.TxDel? ==> Unspoiled(e)
    {
      e := ValidateOne(ts, vOp, op, key, val);
      if e.Pass? {
        e := WriteOne(TxCmd(ts, op, key, val));
      }
    }

    method DeleteEntry(ts: TableSpec, key: Key) returns (e: Outcome)
      requires Sound() && GoodKey(ts, key)
      modifies this`txState, this`txCmds, this`txTsEntryMap, this`txTsEntryHGetAll, this`savePoint
      modifies this`cvlEditConfigData, client`store, client`updated
      ensures CallFrame(Key2Redis(ts, key), e)
      ensures old(Truthful()) ==> Truthful()
      ensures e.Pass? ==> Visible() == Meaning(Request.DeleteEntry(ts, key), old(Visible()))
      ensures e.Fail? ==> client.store == old(client.store) && txCmds == old(txCmds)
      ensures e.Fail? ==> Unspoiled(e) && Visible() == old(Visible())
    {
      e := CheckedWrite(ts, OpDelete, TxDel, key, map[]);
    }

    method ModEntry(ts: TableSpec, key: Key, value: Hash) returns (e: Outcome)
      requires Sound() && GoodKey(ts, key)
      modifies this`txState, this`txCmds, this`txTsEntryMap, this`txTsEntryHGetAll, this`savePoint
      modifies this`cvlEditConfigData, client`store, client`updated
      ensures CallFrame(Key2Redis(ts, key), e)
      ensures e.Pass? ==> Visible() == Meaning(Request.ModEntry(ts, key, value), old(Visible()))
      ensures e.Fail? ==> client.store == old(client.store) && txCmds == old(txCmds)
      ensures e.Fail? && Unspoiled(e) ==> Visible() == old(Visible())
    {
      if value == map[] {
        if ts.noDelete {
          return Pass;
        }
        e := DeleteEntry(ts, key);
      } else {
        e := CheckedWrite(ts, OpUpdate, TxHMSet, key, value);
      }
    }

    method DeleteEntryFields(ts: TableSpec, key: Key, value: Hash) returns (e: Outcome)
      requires Sound() && GoodKey(ts, key) && value != map[]
      modifies this`txState, this`txCmds, this`txTsEntryMap, this`txTsEntryHGetAll, this`savePoint
      modifies this`cvlEditConfigData, client`store, client`updated
      ensures CallFrame(Key2Redis(ts, key), e)
      ensures e.Pass? ==> Visible() == Meaning(Request.DeleteEntryFields(ts, key, value), old(Visible()))
      ensures e.Fail? ==> client.store == old(client.store) && txCmds == old(txCmds)
      ensures e.Fail? && Unspoiled(e) ==> Visible() == old(Visible())
    {
      e := CheckedWrite(ts, OpDelete, TxHDel, key, value);
    }

    /** A call that failed: nothing has been done, or the command c at most. */
    twostate predicate Stopped(c: TxCmd)
      reads this, client
    {
      || (txCmds == old(txCmds) && client.store == old(client.store))
      || (if old(txState).TxNone? then txCmds == old(txCmds) && client.store == Exec(old(client.store), Wire(c))
          else txCmds == old(txCmds) + [c] && client.store == old(client.store))
    }

    method WriteReplacement(ts: TableSpec, key: Key, value: Hash, complement: Hash) returns (e: Outcome)
      requires Sound() && GoodKey(ts, key) && value != map[] && complement != map[]
      modifies this`txState, this`txCmds, this`txTsEntryMap, this`txTsEntryHGetAll, this`savePoint
      modifies client`store, client`updated
      ensures WriteFrame(Key2Redis(ts, key), e)
      ensures (e == Fail(RedisFailure) ==> !client.reliable) && (e.Pass? ==> err.Pass?)
      ensures e == Fail(CVLFailure) ==> old(err).Fail?
      ensures old(Smooth()) ==> e.Pass? && Smooth()
      ensures var k := Key2Redis(ts, key);
              && (e.Pass? ==> Visible() == Exec(Exec(old(Visible()), HMSet(k, value)), HDel(k, complement.Keys)))
              && (e.Fail? ==> Stopped(TxCmd(ts, TxHMSet, key, value)))
      ensures e.Pass? && !txState.TxNone? ==>
                txCmds == old(txCmds) + [TxCmd(ts, TxHMSet, key, value)] + [TxCmd(ts, TxHDel, key, complement)]
    {
      e := WriteOne(TxCmd(ts, TxHMSet, key, value));
      if e.Pass? {
        e := WriteOne(TxCmd(ts, TxHDel, key, complement));
      }
    }

    /** Both edits of a replacement, validated at once. Logged, they put the edit log two commands
        ahead of the queue. */
    method ValidateTwo(ts: TableSpec, key: Key, value: Hash, complement: Hash) returns (e: Outcome)
      requires Sound() && GoodKey(ts, key) && complement != map[]
      modifies this`cvlEditConfigData
      ensures Sound() && (old(Truthful()) ==> Truthful())
      ensures err.Fail? ==> e == err
      ensures err.Pass? && (acceptsAll || !Logging()) ==> e.Pass?
      ensures e.Fail? ==> e == Fail(CVLFailure) && cvlEditConfigData == old(cvlEditConfigData)
      ensures e.Pass? ==> err.Pass?
      ensures old(Rewindable()) && savePoint.Some? ==> Rewindable()
      ensures e.Pass? && Logging() && old(InStep()) ==>
                EditCommands(cvlEditConfigData) ==
                Wires(txCmds + [TxCmd(ts, TxHMSet, key, value)] + [TxCmd(ts, TxHDel, key, complement)])
    {
      ghost var k := Key2Redis(ts, key);
      e := DoCVL(ts, [OpUpdate, OpDelete], key, [value, complement]);
      if e.Pass? && Logging() && old(InStep()) {
        ghost var e1, e2 := CVLEdit(ValidateNone, OpUpdate, k, value), CVLEdit(ValidateNone, OpDelete, k, complement);
        assert cvlEditConfigData == old(cvlEditConfigData) + [e1, e2];
        TwoLogsAppend(old(cvlEditConfigData), txCmds, e1, TxCmd(ts, TxHMSet, key, value),
                      e2, TxCmd(ts, TxHDel, key, complement));
      }
    }

    /** setEntry when the row has fields the new value lacks: both edits are validated at once,
        then HMSET and HDEL are queued. */
    method CheckedReplacement(ts: TableSpec, key: Key, value: Hash, complement: Hash) returns (e: Outcome)
      requires Sound() && GoodKey(ts, key) && value != map[] && complement != map[]
      modifies this`txState, this`txCmds, this`txTsEntryMap, this`txTsEntryHGetAll, this`savePoint
      modifies this`cvlEditConfigData, client`store, client`updated
      ensures CallFrame(Key2Redis(ts, key), e) && (e.Pass? ==> err.Pass?)
      ensures e.Pass? ==> Visible() == Exec(Exec(old(Visible()), HMSet(Key2Redis(ts, key), value)),
                                            HDel(Key2Redis(ts, key), complement.Keys))
      ensures e.Fail? ==> Stopped(TxCmd(ts, TxHMSet, key, value))
    {
      e := ValidateTwo(ts, key, value, complement);
      if e.Pass? {
        e := WriteReplacement(ts, key, value, complement);
      }
    }

    /** The fields of the current row that the new value lacks. There are none when `merges`: that was
        asked for, or the row cannot be read. */
    method Complement(ts: TableSpec, key: Key, value: Hash, isCreate: bool)
      returns (vOp: VOp, complement: Hash, merges: bool)
      requires Sound()
      ensures vOp.OpCreate? || vOp.OpUpdate?
      ensures vOp.OpCreate? || merges ==> complement == map[]
      ensures isCreate ==> merges
      ensures client.reliable || Has(txTsEntryMap, Key2Redis(ts, key)) ==> merges == isCreate
      ensures Truthful() && !merges && err.Pass? ==>
                complement.Keys == HashAt(Visible(), Key2Redis(ts, key)).Keys - value.Keys
    {
      vOp, complement, merges := OpCreate, map[], isCreate;
      if !isCreate {
        var current, found := GetEntry(ts, key);
        merges := found == Fail(RedisFailure);
        if found.Pass? {
          vOp, complement := OpUpdate, map f | f in current && f !in value :: "";
        }
      }
    }

    /** The writes of setEntry: HMSET, and HDEL of the complement if there is one. */
    method WriteFields(ts: TableSpec, key: Key, value: Hash, vOp: VOp, complement: Hash, ghost merges: bool)
      returns (e: Outcome)
      requires Sound() && GoodKey(ts, key) && value != map[] && !vOp.OpDelete? && (merges ==> complement == map[])
      requires Truthful() && !merges && err.Pass? ==>
                 complement.Keys == HashAt(Visible(), Key2Redis(ts, key)).Keys - value.Keys
      modifies this`txState, this`txCmds, this`txTsEntryMap, this`txTsEntryHGetAll, this`savePoint
      modifies this`cvlEditConfigData, client`store, client`updated
      ensures CallFrame(Key2Redis(ts, key), e)
      ensures e.Pass? && (old(Truthful()) || merges) ==>
                Visible() == Meaning(SetRequest(ts, key, value, merges), old(Visible()))
      ensures e.Fail? ==> Stopped(TxCmd(ts, TxHMSet, key, value))
    {
      if complement == map[] {
        e := CheckedWrite(ts, vOp, TxHMSet, key, value);
      } else {
        e := CheckedReplacement(ts, key, value, complement);
      }
      if e.Pass? && (old(Truthful()) || merges) {
        BelievedAt(old(client.store), old(txTsEntryHGetAll));
        ReplayCompact(old(Base()), Wires(old(txCmds)));
        SetMeaning(old(Visible()), ts, key, value, complement.Keys, merges);
      }
    }

    /** setEntry for a value with fields. */
    method SetFields(ts: TableSpec, key: Key, value: Hash, isCreate: bool) returns (e: Outcome, merges: bool)
      requires Sound() && GoodKey(ts, key) && value != map[]
      modifies this`txState, this`txCmds, this`txTsEntryMap, this`txTsEntryHGetAll, this`savePoint
      modifies this`cvlEditConfigData, client`store, client`updated
      ensures CallFrame(Key2Redis(ts, key), e)
      ensures isCreate ==> merges
      ensures client.reliable || Has(old(txTsEntryMap), Key2Redis(ts, key)) ==> merges == isCreate
      ensures e.Pass? && (old(Truthful()) || merges) ==>
                Visible() == Meaning(SetRequest(ts, key, value, merges), old(Visible()))
      ensures e.Fail? ==> Stopped(TxCmd(ts, TxHMSet, key, value))
    {
      var vOp, complement;
      vOp, complement, merges := Complement(ts, key, value, isCreate);
      e := WriteFields(ts, key, value, vOp, complement, merges);
    }

    /** setEntry. SetEntry replaces the row exactly when the current row could be read, or has no
        field that the new value lacks (MergeReplaces); otherwise it merges, and reports success. */
    method SetOrCreate(ts: TableSpec, key: Key, value: Hash, isCreate: bool) returns (e: Outcome, merges: bool)
      requires Sound() && GoodKey(ts, key)
      modifies this`txState, this`txCmds, this`txTsEntryMap, this`txTsEntryHGetAll, this`savePoint
      modifies this`cvlEditConfigData, client`store, client`updated
      ensures CallFrame(Key2Redis(ts, key), e)
      ensures isCreate ==> merges
      ensures client.reliable || Has(old(txTsEntryMap), Key2Redis(ts, key)) ==> merges == isCreate
      ensures e.Pass? && (old(Truthful()) || merges) ==>
                Visible() == Meaning(SetRequest(ts, key, value, merges), old(Visible()))
      ensures e.Fail? ==> Stopped(TxCmd(ts, TxHMSet, key, value))
    {
      merges := isCreate;
      if value == map[] {
        if ts.noDelete {
          return Pass, merges;
        }
        e := DeleteEntry(ts, key);
      } else {
        e, merges := SetFields(ts, key, value, isCreate);
      }
    }

    /** Any write call. `acted` is the request that was carried out: the one that was made, unless
        it was a SetEntry whose row could not be read. */
    method Perform(r: Request) returns (e: Outcome, acted: Request)
      requires Sound() && GoodRequest(r)
      modifies this`txState, this`txCmds, this`txTsEntryMap, this`txTsEntryHGetAll, this`savePoint
      modifies this`cvlEditConfigData, client`store, client`updated
      ensures CallFrame(Key2Redis(r.ts, r.key), e) && ActsFor(acted, r, client.reliable)
      ensures e.Pass? && (old(Truthful()) || !acted.SetEntry?) ==> Visible() == Meaning(acted, old(Visible()))
    {
      var merges;
      acted := r;
      match r
      case CreateEntry(ts, key, value) => e, merges := SetOrCreate(ts, key, value, true);
      case SetEntry(ts, key, value) =>
        e, merges := SetOrCreate(ts, key, value, false);
        acted := SetRequest(ts, key, value, merges);
      case ModEntry(ts, key, value) => e := ModEntry(ts, key, value);
      case DeleteEntry(ts, key) => e := DeleteEntry(ts, key);
      case DeleteEntryFields(ts, key, value) => e := DeleteEntryFields(ts, key, value);
    }

    // ----- transactions -----

    /** startTx. Called again inside a transaction it reports an error, but it has dropped the
        overlay by then: reads stop seeing the pending commands, exactly when those matter. */
    method StartTx(watch: set<string>) returns (e: Outcome)
      requires Sound() && savePoint.None?
      modifies this`txState, this`txTsEntryMap, this`txTsEntryHGetAll, this`cvOpen
      ensures old(txState).TxNone? ==> Valid() && InStep() && Visible() == client.store
      ensures e.Pass? ==> old(txState).TxNone? && txState.TxWatch? && cvOpen
      ensures acceptsAll && old(txState).TxNone? && client.reliable ==> e.Pass?
      ensures e.Pass? && err.Pass? && opts.isSession && !opts.disableCVLCheck ==> Rewindable()
      ensures !old(txState).TxNone? ==> e.Fail? && txState == old(txState) && txTsEntryMap == map[]
      ensures old(err).Pass? ==>
                (Tracks(client.store, txTsEntryMap, Wires(txCmds)) <==> Visible() == client.store)
    {
      txTsEntryMap, txTsEntryHGetAll := map[], map[];
      NothingSaved(client.store);
      EmptyOverlayTracks(client.store, Wires(txCmds));
      cvOpen := ValidationSessOpen();
      if !cvOpen {
        return Fail(CVLFailure);
      }
      if !txState.TxNone? {
        return Fail(BadTxState);
      }
      assert Wires(txCmds) == [] && EditCommands(cvlEditConfigData) == [];
      txState := TxWatch;
      if watch != {} {
        var ok := client.Watch(watch);
        if !ok {
          return Fail(RedisFailure);
        }
      }
      return Pass;
    }

    /** The end of commitTx and abortTx, whatever happened before. */
    method EndTx()
      modifies this`txState, this`txCmds, this`txTsEntryMap, this`txTsEntryHGetAll, this`cvlEditConfigData, this`cvOpen
      ensures txState.TxNone? && txCmds == [] && cvlEditConfigData == [] && !cvOpen
      ensures txTsEntryMap == map[] && txTsEntryHGetAll == map[]
    {
      txState, txCmds, cvlEditConfigData := TxNone, [], [];
      txTsEntryMap, txTsEntryHGetAll := map[], map[];
      if cvOpen {
        var _ := ValidationSessClose();
        cvOpen := false;
      }
    }

    /** Such a handle is as good as new. */
    lemma NothingPending()
      requires txState.TxNone? && txCmds == [] && cvlEditConfigData == [] && savePoint.None?
      requires txTsEntryMap == map[] && txTsEntryHGetAll == map[]
      requires GoodStore(client.store) && !client.inMulti && (err.Fail? ==> err.error.CVLFailure?)
      ensures Valid() && InStep() && Visible() == client.store && Base() == client.store
    {
      NothingSaved(client.store);
      assert Wires(txCmds) == [] && EditCommands(cvlEditConfigData) == [];
      EmptyCaches(client.store, txTsEntryMap, txTsEntryHGetAll);
    }

    /** Outside a transaction a handle shows the store itself. */
    lemma OutsideTx()
      requires Sound() && txState.TxNone?
      ensures Visible() == client.store && Base() == client.store
    {
      NothingSaved(client.store);
      assert Wires(txCmds) == [];
    }

    /** The names of the tables that the queued commands touch. */
    function TouchedTables(cs: seq<TxCmd>): set<string> {
      set i | 0 <= i < |cs| :: cs[i].ts.name
    }

    /** The middle of commitTx: MULTI, one command per queued command, one flag per table. */
    method QueueAll() returns (ok: bool)
      requires !client.inMulti
      modifies client`inMulti, client`queue, client`queuedUpdates
      ensures client.reliable ==> ok
      ensures ok ==> client.inMulti && client.queue == Wires(txCmds)
      ensures ok ==> client.queuedUpdates ==
                     (set t | t in TouchedTables(txCmds) :: UpdatedFlag(t)) + {UpdatedFlag("*")}
      ensures !ok ==> !client.inMulti
    {
      ok := client.Multi();
      if !ok {
        return;
      }
      var tables: set<string> := {};
      for i := 0 to |txCmds|
        invariant client.inMulti && client.queue == Wires(txCmds)[..i] && client.queuedUpdates == {}
        invariant tables == TouchedTables(txCmds[..i])
      {
        tables := tables + {txCmds[i].ts.name};
        ok := client.Queue(Wire(txCmds[i]));
        if !ok {
          return;
        }
        assert Wires(txCmds)[..i + 1] == Wires(txCmds)[..i] + [Wire(txCmds[i])];
        forall t | t in TouchedTables(txCmds[..i + 1])
          ensures t in tables
        {
          var j :| 0 <= j < i + 1 && txCmds[..i + 1][j].ts.name == t;
          if j < i {
            assert txCmds[..i][j] == txCmds[j];
          }
        }
        forall t | t in tables
          ensures t in TouchedTables(txCmds[..i + 1])
        {
          if t in TouchedTables(txCmds[..i]) {
            var j :| 0 <= j < i && txCmds[..i][j].ts.name == t;
            assert txCmds[..i + 1][j].ts.name == t;
          } else {
            assert txCmds[..i + 1][i].ts.name == t;
          }
        }
      }
      assert txCmds[..|txCmds|] == txCmds;
      var rest := tables;
      while rest != {}
        invariant client.inMulti && client.queue == Wires(txCmds) && rest <= tables
        invariant client.queuedUpdates == set t | t in tables - rest :: UpdatedFlag(t)
        decreases rest
      {
        var t :| t in rest;
        ok := client.QueueSet(UpdatedFlag(t));
        if !ok {
          return;
        }
        rest := rest - {t};
      }
      assert tables - {} == tables;
      ok := client.QueueSet(UpdatedFlag("*"));
    }

    /** commitTx. Either the store becomes what the pending commands promise, or nothing changes; in
        both cases they are gone, and so is what failed reads have left. */
    method CommitTx() returns (e: Outcome)
      requires Sound() && savePoint.None?
      modifies this`txState, this`txCmds, this`txTsEntryMap, this`txTsEntryHGetAll, this`cvlEditConfigData, this`cvOpen
      modifies client`store, client`inMulti, client`queue, client`updated, client`queuedUpdates
      ensures Valid() && InStep() && txState.TxNone? && txCmds == []
      ensures e.Pass? ==> old(InTx()) && err.Pass? && !client.watchBroken
      ensures client.reliable && old(InTx()) && err.Pass? && !client.watchBroken ==> e.Pass?
      ensures client.store == if e.Pass? then old(Promised()) else old(client.store)
      ensures Visible() == client.store
      ensures err.Fail? ==> e == err
      ensures e.Pass? ==>
                client.updated == old(client.updated)
                                  + (set t | t in TouchedTables(old(txCmds)) :: UpdatedFlag(t)) + {UpdatedFlag("*")}
    {
      e := if InTx() then Pass else Fail(BadTxState);
      if err.Fail? {
        e := err;
      }
      if e.Pass? {
        var ok := QueueAll();
        if ok {
          ok := client.ExecQueue();
          if !ok {
            e := Fail(TransactionFail);
          }
        } else {
          e := Fail(RedisFailure);
        }
      }
      VisibleGood(old(client.store), old(txCmds));
      EndTx();
      NothingPending();
    }

    /** abortTx */
    method AbortTx() returns (e: Outcome)
      requires Sound() && savePoint.None?
      modifies this`txState, this`txCmds, this`txTsEntryMap, this`txTsEntryHGetAll, this`cvlEditConfigData, this`cvOpen
      ensures Valid() && InStep() && txState.TxNone? && txCmds == []
      ensures e.Pass? ==> old(InTx())
      ensures client.reliable && old(InTx()) ==> e.Pass?
      ensures Visible() == client.store
    {
      e := if InTx() then Pass else Fail(BadTxState);
      if e.Pass? {
        var ok := client.Watch({});
        e := if ok then Pass else Fail(RedisFailure);
      }
      EndTx();
      NothingPending();
    }

    // ----- savepoints -----

    method DeclareSP() returns (e: Outcome)
      requires Sound()
      modifies this`savePoint
      ensures Sound() && (old(Truthful()) ==> Truthful())
      ensures e.Pass? <==> opts.isSession && old(savePoint).None?
      ensures e.Fail? ==> savePoint == old(savePoint)
      ensures e.Pass? ==>
                && savePoint == Some(SavePoint(|txCmds|, |cvlEditConfigData|, map[]))
                && AtSavePoint() == Visible()
      ensures e.Pass? && old(Valid()) && old(Rewindable()) && InStep() ==> Rewindable()
    {
      if !opts.isSession {
        return Fail(InvalidSession);
      }
      if savePoint.Some? {
        return Fail(NotSupported);
      }
      if Valid() && Rewindable() && InStep() {
        FreshSavePoint(Base(), txTsEntryMap, txTsEntryHGetAll, txCmds, cvlEditConfigData);
      }
      savePoint := Some(SavePoint(|txCmds|, |cvlEditConfigData|, map[]));
      assert Wires(txCmds)[..|txCmds|] == Wires(txCmds);
      return Pass;
    }

    method ReleaseSP() returns (e: Outcome)
      requires Sound()
      modifies this`savePoint
      ensures Sound() && (old(Truthful()) ==> Truthful())
      ensures e.Pass? <==> opts.isSession && old(savePoint).Some?
      ensures savePoint == if e.Pass? then None else old(savePoint)
      ensures old(Rewindable()) ==> Rewindable()
    {
      if !opts.isSession {
        return Fail(InvalidSession);
      }
      if savePoint.None? {
        return Fail(NotSupported);
      }
      savePoint := None;
      return Pass;
    }

    /** Rollback2SP, first part: delete every entry of the overlay, keeping its tables. */
    method ClearOverlay()
      modifies this`txTsEntryMap
      ensures forall t :: t in txTsEntryMap <==> t in old(txTsEntryMap)
      ensures forall t :: t in txTsEntryMap ==> txTsEntryMap[t] == map[]
    {
      var tables := txTsEntryMap.Keys;
      while tables != {}
        invariant tables <= txTsEntryMap.Keys == old(txTsEntryMap).Keys
        invariant forall t :: t in txTsEntryMap && t !in tables ==> txTsEntryMap[t] == map[]
        decreases tables
      {
        var tn :| tn in tables;
        var keys := txTsEntryMap[tn].Keys;
        while keys != {}
          invariant tn in txTsEntryMap && txTsEntryMap[tn].Keys == keys
          invariant txTsEntryMap.Keys == old(txTsEntryMap).Keys
          invariant forall t :: t in txTsEntryMap && t !in tables ==> txTsEntryMap[t] == map[]
          decreases keys
        {
          var k :| k in keys;
          txTsEntryMap := txTsEntryMap[tn := txTsEntryMap[tn] - {k}];
          keys := keys - {k};
        }
        tables := tables - {tn};
      }
    }

    method ReloadTable(tn: string, tb: map<string, Hash>)
      requires tn in txTsEntryMap && txTsEntryMap[tn] == map[]
      modifies this`txTsEntryMap
      ensures txTsEntryMap == old(txTsEntryMap)[tn := tb]
    {
      var keys := tb.Keys;
      while keys != {}
        invariant keys <= tb.Keys && tn in txTsEntryMap
        invariant txTsEntryMap[tn].Keys == tb.Keys - keys
        invariant forall k :: k in txTsEntryMap[tn] ==> txTsEntryMap[tn][k] == tb[k]
        invariant txTsEntryMap == old(txTsEntryMap)[tn := txTsEntryMap[tn]]
        decreases keys
      {
        var k :| k in keys;
        txTsEntryMap := txTsEntryMap[tn := txTsEntryMap[tn][k := tb[k]]];
        keys := keys - {k};
      }
      assert txTsEntryMap[tn] == tb;
    }

    /** Rollback2SP, second part: put the saved bases back. A table missing from the overlay
        would have its saved bases dropped instead; since none is missing, they all survive. */
    method ReloadBases()
      requires forall t :: t in txTsEntryHGetAll ==> t in txTsEntryMap
      requires forall t :: t in txTsEntryMap ==> txTsEntryMap[t] == map[]
      modifies this`txTsEntryMap, this`txTsEntryHGetAll
      ensures txTsEntryHGetAll == old(txTsEntryHGetAll)
      ensures forall t :: t in txTsEntryMap <==> t in old(txTsEntryMap)
      ensures forall t :: t in txTsEntryMap ==>
                txTsEntryMap[t] == if t in txTsEntryHGetAll then txTsEntryHGetAll[t] else map[]
    {
      var bases := txTsEntryHGetAll;
      var tables := bases.Keys;
      while tables != {}
        invariant bases == txTsEntryHGetAll && tables <= bases.Keys
        invariant txTsEntryHGetAll == old(txTsEntryHGetAll)
        invariant txTsEntryMap.Keys == old(txTsEntryMap).Keys
        invariant forall t :: t in txTsEntryMap ==>
                    txTsEntryMap[t] == if t in bases && t !in tables then bases[t] else map[]
        decreases tables
      {
        var tn :| tn in tables;
        if tn !in txTsEntryMap {
          bases := bases[tn := map[]];
        }
        ReloadTable(tn, bases[tn]);
        tables := tables - {tn};
      }
      txTsEntryHGetAll := bases;
    }

    /** The overlay as it stands before any edit is played back. */
    method ResetOverlay()
      requires WellKeyed(txTsEntryHGetAll) && forall t :: t in txTsEntryHGetAll ==> t in txTsEntryMap
      modifies this`txTsEntryMap, this`txTsEntryHGetAll
      ensures txTsEntryHGetAll == old(txTsEntryHGetAll) && txTsEntryMap.Keys == old(txTsEntryMap).Keys
      ensures WellKeyed(txTsEntryMap) && IsRebuilt(txTsEntryMap, txTsEntryHGetAll, [])
    {
      ClearOverlay();
      ReloadBases();
      ReloadedIsRebuilt(txTsEntryMap, txTsEntryHGetAll);
    }

    /** One edit of the playback, applied to the overlay. */
    method PlayBack(edit: CVLEdit)
      requires RowKey(edit.key) && Head(edit.key) in txTsEntryMap
      modifies this`txTsEntryMap
      ensures txTsEntryMap == Played(old(txTsEntryMap), edit)
    {
      var (ts, key) := Redis2TsKey(edit.key);
      RedisKeyRoundTrip(ts, edit.key);
      var rk := Key2Redis(ts, key);
      if rk !in txTsEntryMap[ts.name] {
        txTsEntryMap := With(txTsEntryMap, rk, map[]);
      }
      var h := txTsEntryMap[ts.name][rk];
      WithTwice(old(txTsEntryMap), rk, map[], Effect(h, EditCommand(edit)));
      match edit.vOp {
        case OpCreate | OpUpdate =>
          txTsEntryMap := With(txTsEntryMap, rk, h + edit.data);
        case OpDelete =>
          txTsEntryMap := With(txTsEntryMap, rk, if edit.data == map[] then map[] else h - edit.data.Keys);
      }
    }

    /** The edits es with the first n of them marked as validated. */
    ghost predicate Marked(es: seq<CVLEdit>, n: nat)
      reads this`cvlEditConfigData
    {
      && |cvlEditConfigData| == |es|
      && forall i :: 0 <= i < |es| ==>
           cvlEditConfigData[i] == if i < n then es[i].(vType := ValidateNone) else es[i]
    }

    /** One round of the playback: the edit is validated, then applied. */
    method PlayBackOne(ghost es: seq<CVLEdit>, ix: nat) returns (ok: bool)
      requires ix < |es| && Marked(es, ix) && cvOpen && WellKeyed(txTsEntryMap)
      requires RowKey(es[ix].key) && Head(es[ix].key) in txTsEntryMap
      requires IsRebuilt(txTsEntryMap, txTsEntryHGetAll, es[..ix])
      modifies this`txTsEntryMap, this`cvlEditConfigData
      ensures WellKeyed(txTsEntryMap) && txTsEntryMap.Keys == old(txTsEntryMap).Keys
      ensures acceptsAll ==> ok
      ensures ok ==> Marked(es, ix + 1) && IsRebuilt(txTsEntryMap, txTsEntryHGetAll, es[..ix + 1])
      ensures !ok ==> cvlEditConfigData == old(cvlEditConfigData)[ix := es[ix].(vType := ValidateAll)]
    {
      cvlEditConfigData := cvlEditConfigData[ix := cvlEditConfigData[ix].(vType := ValidateAll)];
      ok := ValidateEditConfig(cvlEditConfigData[..ix + 1], 1);
      if !ok {
        return;
      }
      PlayedIsRebuilt(txTsEntryMap, txTsEntryHGetAll, es[..ix], es[ix]);
      PlayedWellKeyed(txTsEntryMap, es[ix]);
      assert es[..ix + 1] == es[..ix] + [es[ix]];
      PlayBack(cvlEditConfigData[ix]);
      cvlEditConfigData := cvlEditConfigData[ix := cvlEditConfigData[ix].(vType := ValidateNone)];
    }

    /** Rollback2SP, third part: validate and apply the logged edits again, one by one. */
    method PlayBackAll(n: nat) returns (e: Outcome)
      requires n <= |cvlEditConfigData| && cvOpen && WellKeyed(txTsEntryMap) && EditKeysGood(cvlEditConfigData)
      requires forall i :: 0 <= i < n ==> Head(cvlEditConfigData[i].key) in txTsEntryMap
      requires IsRebuilt(txTsEntryMap, txTsEntryHGetAll, [])
      modifies this`txTsEntryMap, this`cvlEditConfigData
      ensures WellKeyed(txTsEntryMap) && txTsEntryMap.Keys == old(txTsEntryMap).Keys
      ensures EditKeysGood(cvlEditConfigData) && |cvlEditConfigData| == |old(cvlEditConfigData)|
      ensures e.Pass? || (e == Fail(CVLFailure) && !acceptsAll)
      ensures e.Pass? ==> IsRebuilt(txTsEntryMap, txTsEntryHGetAll, old(cvlEditConfigData)[..n])
      ensures e.Pass? && AllValidated(old(cvlEditConfigData)) ==> cvlEditConfigData == old(cvlEditConfigData)
    {
      ghost var es := cvlEditConfigData;
      for ix := 0 to n
        invariant Marked(es, ix)
        invariant WellKeyed(txTsEntryMap) && txTsEntryMap.Keys == old(txTsEntryMap).Keys
        invariant IsRebuilt(txTsEntryMap, txTsEntryHGetAll, es[..ix])
      {
        var ok := PlayBackOne(es, ix);
        if !ok {
          return Fail(CVLFailure);
        }
      }
      return Pass;
    }

    /** Rollback2SP: rebuild the overlay from the saved bases and the first n edits, in a new
        validation session. Without a session nothing is played back. */
    method RebuildOverlay(n: nat) returns (e: Outcome)
      requires n <= |cvlEditConfigData| && EditKeysGood(cvlEditConfigData)
      requires CachesGood(txTsEntryMap, txTsEntryHGetAll, [])
      requires forall i :: 0 <= i < n ==> Head(cvlEditConfigData[i].key) in txTsEntryMap
      modifies this`txTsEntryMap, this`txTsEntryHGetAll, this`cvlEditConfigData, this`cvOpen
      ensures e.Pass? || (e == Fail(CVLFailure) && !acceptsAll)
      ensures txTsEntryHGetAll == old(txTsEntryHGetAll) && WellKeyed(txTsEntryMap)
      ensures txTsEntryMap.Keys == old(txTsEntryMap).Keys
      ensures EditKeysGood(cvlEditConfigData)
      ensures e.Pass? && old(cvOpen) ==>
                && cvOpen && IsRebuilt(txTsEntryMap, txTsEntryHGetAll, old(cvlEditConfigData)[..n])
                && |cvlEditConfigData| == n
                && (AllValidated(old(cvlEditConfigData)) ==> cvlEditConfigData == old(cvlEditConfigData)[..n])
      ensures e.Fail? || !old(cvOpen) ==> |cvlEditConfigData| == |old(cvlEditConfigData)|
      ensures !old(cvOpen) ==>
                && e.Pass? && !cvOpen && cvlEditConfigData == old(cvlEditConfigData)
                && IsRebuilt(txTsEntryMap, txTsEntryHGetAll, [])
    {
      ResetOverlay();
      if !cvOpen {
        return Pass;
      }
      var ok := ValidationSessClose();
      if !ok {
        return Fail(CVLFailure);
      }
      cvOpen := ValidationSessOpen();
      if !cvOpen {
        return Fail(CVLFailure);
      }
      e := PlayBackAll(n);
      if e.Pass? {
        cvlEditConfigData := cvlEditConfigData[..n];
      }
    }

    /** The edits to be played back name tables that have an overlay. So it is for every
        savepoint that was declared while the logs agreed, as RewindableIsPlayable shows. */
    predicate Playable()
      reads this
    {
      savePoint.Some? ==>
        && savePoint.value.cECDLen <= |cvlEditConfigData|
        && forall i :: 0 <= i < savePoint.value.cECDLen ==> Head(cvlEditConfigData[i].key) in txTsEntryMap
    }

    lemma RewindableIsPlayable()
      requires WellFormed() && (Rewindable() || opts.disableCVLCheck || txState.TxNone?)
      ensures Playable()
    {
      if savePoint.Some? && Rewindable() {
        var n := savePoint.value.cECDLen;
        forall i | 0 <= i < n
          ensures Head(cvlEditConfigData[i].key) in txTsEntryMap
        {
          assert EditCommands(cvlEditConfigData[..n])[i] == Wires(txCmds)[..n][i];
          assert EditCommand(cvlEditConfigData[i]).key == Wire(txCmds[i]).key;
          TableOfKey(txCmds[i].ts, txCmds[i].key);
        }
      }
    }

    /** Rollback2SP */
    method Rollback2SP() returns (e: Outcome)
      requires Sound() && Playable()
      modifies this`txCmds, this`txTsEntryMap, this`txTsEntryHGetAll, this`cvlEditConfigData
      modifies this`cvOpen, this`err, this`savePoint
      ensures !opts.isSession ==> e == Fail(InvalidSession)
      ensures opts.isSession && old(savePoint).None? ==> e == Fail(NotSupported)
      ensures e == Fail(InvalidSession) || e == Fail(NotSupported) ==>
                unchanged(`txCmds, `txTsEntryMap, `cvlEditConfigData, `err, `savePoint)
      ensures opts.isSession && old(savePoint).Some? ==>
                && savePoint.None? && Sound() && Base() == old(Base())
                && txCmds == old(txCmds[..savePoint.value.txCmdsLen])
                && txTsEntryHGetAll == old(txTsEntryHGetAll)
                && err == (if e.Pass? then old(err) else e)
      // The overlay is the one that saved bases and the first edits give.
      ensures opts.isSession && old(savePoint).Some? && old(cvOpen) && e.Pass? ==>
                IsRebuilt(txTsEntryMap, txTsEntryHGetAll, old(cvlEditConfigData[..savePoint.value.cECDLen]))
      // A validated session gets the rows of the savepoint back, the very rows that the undo
      // log would restore, and it can go on.
      ensures old(Rewindable()) && old(savePoint).Some? && e.Pass? ==>
                && Valid() && Rewindable() && InStep()
                && Visible() == old(AtSavePoint())
                && forall k :: Peek(txTsEntryMap, client.store, k) ==
                               UndoneAt(old(savePoint).value.txTsOrigEntryMap, old(txTsEntryMap), Base(), k)
      ensures opts.isSession && old(savePoint).Some? && e.Fail? ==> Valid()
      ensures (acceptsAll || !old(cvOpen)) && opts.isSession && old(savePoint).Some? ==> e.Pass?
      // Without validation the edit log is empty, and pending writes drop out of view.
      ensures opts.disableCVLCheck && opts.isSession && old(savePoint).Some? && old(err).Pass? && e.Pass? ==>
                (Tracks(Base(), txTsEntryMap, Wires(txCmds)) <==> Visible() == Base())
    {
      if !opts.isSession {
        return Fail(InvalidSession);
      }
      if savePoint.None? {
        return Fail(NotSupported);
      }
      ghost var sp := savePoint.value;
      ghost var edits := cvlEditConfigData[..sp.cECDLen];
      e := RollBackTo(savePoint.value);
      if e.Pass? && old(Rewindable()) {
        RolledBack(Base(), old(txTsEntryMap), txTsEntryHGetAll, old(txCmds), old(cvlEditConfigData), sp, txTsEntryMap);
        WiresPrefix(old(txCmds), sp.txCmdsLen);
        PeekBelieved(txTsEntryMap, client.store, txTsEntryHGetAll);
      }
      if e.Pass? && opts.disableCVLCheck && err.Pass? {
        assert edits == [];
        RebuiltFromNothing();
      }
    }

    /** The part of Rollback2SP behind its checks. */
    method RollBackTo(sp: SavePoint) returns (e: Outcome)
      requires Sound() && Playable() && savePoint == Some(sp) && opts.isSession
      modifies this`txCmds, this`txTsEntryMap, this`txTsEntryHGetAll, this`cvlEditConfigData
      modifies this`cvOpen, this`err, this`savePoint
      ensures e.Pass? || e == Fail(CVLFailure)
      ensures savePoint.None? && Sound() && Base() == old(Base())
      ensures txCmds == old(txCmds)[..sp.txCmdsLen] && txTsEntryHGetAll == old(txTsEntryHGetAll)
      ensures err == (if e.Pass? then old(err) else e)
      ensures e.Pass? ==>
                IsRebuilt(txTsEntryMap, txTsEntryHGetAll,
                          if old(cvOpen) then old(cvlEditConfigData)[..sp.cECDLen] else [])
      ensures e.Pass? && old(cvOpen) && old(err).Pass? ==>
                cvOpen && cvlEditConfigData == old(cvlEditConfigData)[..sp.cECDLen]
      ensures acceptsAll || !old(cvOpen) ==> e.Pass?
    {
      txCmds := txCmds[..sp.txCmdsLen];
      e := RebuildOverlay(sp.cECDLen);
      if e.Fail? {
        err := e;
      }
      savePoint := None;
      RebuiltCovered(e, old(cvOpen), old(cvlEditConfigData)[..sp.cECDLen]);
    }

    lemma RebuiltCovered(e: Outcome, wasOpen: bool, edits: seq<CVLEdit>)
      requires e.Pass? ==> IsRebuilt(txTsEntryMap, txTsEntryHGetAll, if wasOpen then edits else [])
      ensures e.Pass? ==> Covered(txTsEntryMap, txTsEntryHGetAll)
    {
    }

    lemma RebuiltFromNothing()
      requires Sound() && err.Pass? && IsRebuilt(txTsEntryMap, txTsEntryHGetAll, [])
      ensures Tracks(Base(), txTsEntryMap, Wires(txCmds)) <==> Visible() == Base()
    {
      BelievedAt(client.store, txTsEntryHGetAll);
      RebuiltPeek(Base(), txTsEntryMap, txTsEntryHGetAll, []);
      NoEditsNoPendingWrites(Base(), txTsEntryHGetAll, Wires(txCmds));
    }
  }
}
