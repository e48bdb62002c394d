/** The pending writes of a transaction as values: queued commands, the per-key overlay that
    reads consult first, the validator's edit log, and the lemmas that tie them together. */
module Overlay {
  import opened Wrappers
  import opened Redis
  import opened Keys

  /** map[table name]map[redis key]: the shape of all the transaction caches. */
  type Tables<V> = map<string, map<string, V>>

  predicate Has<V>(m: Tables<V>, k: string) {
    Head(k) in m && k in m[Head(k)]
  }

  function At<V>(m: Tables<V>, k: string): V
    requires Has(m, k)
  {
    m[Head(k)][k]
  }

  /** m[table][k] = v, creating the table's map when it is missing. */
  function With<V>(m: Tables<V>, k: string, v: V): Tables<V> {
    m[Head(k) := (if Head(k) in m then m[Head(k)] else map[])[k := v]]
  }

  lemma WithTwice<V>(m: Tables<V>, k: string, v: V, w: V)
    ensures With(With(m, k, v), k, w) == With(m, k, w)
  {
    assert With(m, k, v)[Head(k)][k := w] == With(m, k, w)[Head(k)];
  }

  lemma HasWith<V>(m: Tables<V>, k: string, v: V)
    ensures forall j :: Has(With(m, k, v), j) <==> j == k || Has(m, j)
    ensures forall j :: Has(With(m, k, v), j) ==> At(With(m, k, v), j) == if j == k then v else At(m, j)
  {
  }

  predicate WellKeyed<V>(m: Tables<V>) {
    forall t, k :: t in m && k in m[t] ==> RowKey(k) && Head(k) == t
  }

  lemma WellKeyedWith<V>(m: Tables<V>, k: string, v: V)
    requires WellKeyed(m) && RowKey(k)
    ensures WellKeyed(With(m, k, v))
  {
  }

  /** What a read of key k sees: the overlay first, then the store. */
  function Peek(overlay: Tables<Hash>, s: Store, k: string): Hash {
    if Has(overlay, k) then At(overlay, k) else HashAt(s, k)
  }

  lemma PeekWith(overlay: Tables<Hash>, s: Store, k: string, h: Hash, j: string)
    ensures Peek(With(overlay, k, h), s, j) == if j == k then h else Peek(overlay, s, j)
  {
  }

  // ----- queued commands -----

  datatype TxOp = TxHMSet | TxHDel | TxDel

  datatype TxCmd = TxCmd(ts: TableSpec, op: TxOp, key: Key, value: Hash)

  /** The Redis command a queued command becomes. */
  function Wire(c: TxCmd): Command {
    var k := Key2Redis(c.ts, c.key);
    match c.op
    case TxHMSet => HMSet(k, c.value)
    case TxHDel => HDel(k, c.value.Keys)
    case TxDel => Del(k)
  }

  function Wires(cs: seq<TxCmd>): (ws: seq<Command>)
    ensures |ws| == |cs|
  {
    seq(|cs|, i requires 0 <= i < |cs| => Wire(cs[i]))
  }

  predicate GoodKey(ts: TableSpec, key: Key) {
    TableName(ts.name) && Join(key.comp) != ""
  }

  /** HMSET and HDEL carry at least one field. */
  predicate GoodCmd(c: TxCmd) {
    GoodKey(c.ts, c.key) && (c.op.TxDel? || c.value != map[])
  }

  /** The command needs the previous hash of its key, and the overlay does not hold it. */
  predicate BaseMissing(overlay: Tables<Hash>, c: Command) {
    !c.Del? && !Has(overlay, c.key)
  }

  /** Every queued command is well formed, and its table has an overlay. */
  predicate CmdsGood(cs: seq<TxCmd>, overlay: Tables<Hash>) {
    forall i :: 0 <= i < |cs| ==> GoodCmd(cs[i]) && cs[i].ts.name in overlay
  }

  /** The tables of the saved bases all have an overlay, and every row sits under its table. */
  predicate CachesGood(overlay: Tables<Hash>, bases: Tables<Hash>, cs: seq<TxCmd>) {
    && WellKeyed(overlay) && WellKeyed(bases) && CmdsGood(cs, overlay)
    && forall t :: t in bases ==> t in overlay
  }

  lemma CachesAfterWrite(overlay: Tables<Hash>, bases: Tables<Hash>, cs: seq<TxCmd>, c: TxCmd, h: Hash,
                         bases': Tables<Hash>, base: Hash)
    requires CachesGood(overlay, bases, cs) && GoodCmd(c)
    requires bases' == bases || bases' == With(bases, Wire(c).key, base)
    ensures CachesGood(With(overlay, Wire(c).key, h), bases', cs + [c])
  {
    TableOfKey(c.ts, c.key);
    WellKeyedWith(overlay, Wire(c).key, h);
    WellKeyedWith(bases, Wire(c).key, base);
  }

  lemma WiresAppend(cs: seq<TxCmd>, c: TxCmd)
    ensures Wires(cs + [c]) == Wires(cs) + [Wire(c)]
  {
  }

  lemma WiresPrefix(cs: seq<TxCmd>, n: nat)
    requires n <= |cs|
    ensures Wires(cs[..n]) == Wires(cs)[..n]
  {
  }

  /** The simulation invariant: reads through the overlay see the queued commands replayed. */
  ghost predicate Tracks(s: Store, overlay: Tables<Hash>, ws: seq<Command>) {
    forall k :: Peek(overlay, s, k) == HashAt(Replay(s, ws), k)
  }

  lemma TracksWrite(s: Store, overlay: Tables<Hash>, ws: seq<Command>, c: Command)
    requires Tracks(s, overlay, ws)
    ensures Tracks(s, With(overlay, c.key, Effect(Peek(overlay, s, c.key), c)), ws + [c])
  {
    ReplayLast(s, ws, c);
    var h := Effect(Peek(overlay, s, c.key), c);
    assert h == Effect(HashAt(Replay(s, ws), c.key), c);
    forall k
      ensures Peek(With(overlay, c.key, h), s, k) == HashAt(Put(Replay(s, ws), c.key, h), k)
    {
      PeekWith(overlay, s, c.key, h, k);
      assert Peek(overlay, s, k) == HashAt(Replay(s, ws), k);
    }
  }

  /** Dropping the overlay while commands are pending: reads then miss exactly their net effect. */
  lemma EmptyOverlayTracks(s: Store, ws: seq<Command>)
    requires Compact(s)
    ensures Tracks(s, map[], ws) <==> Replay(s, ws) == s
  {
    ReplayCompact(s, ws);
    if Tracks(s, map[], ws) {
      forall k
        ensures HashAt(Replay(s, ws), k) == HashAt(s, k)
      {
        assert Peek(map[], s, k) == HashAt(s, k);
      }
      CompactExtensional(Replay(s, ws), s);
    }
  }

  /** A write whose base could not be read starts from the empty hash. The overlay still
      tells the truth exactly when the key had no fields that the command leaves in place. */
  lemma FailedReadTracks(s: Store, overlay: Tables<Hash>, ws: seq<Command>, c: Command)
    requires Tracks(s, overlay, ws) && !Has(overlay, c.key)
    ensures Tracks(s, With(overlay, c.key, Effect(map[], c)), ws) <==> HashAt(s, c.key) == Effect(map[], c)
  {
    var overlay' := With(overlay, c.key, Effect(map[], c));
    assert Peek(overlay, s, c.key) == HashAt(s, c.key) == HashAt(Replay(s, ws), c.key);
    assert Peek(overlay', s, c.key) == Effect(map[], c);
    if HashAt(s, c.key) == Effect(map[], c) {
      forall k
        ensures Peek(overlay', s, k) == HashAt(Replay(s, ws), k)
      {
        assert Peek(overlay, s, k) == HashAt(Replay(s, ws), k);
      }
    }
  }

  /** The false base is saved as well, so even a rollback keeps hiding the stored hash: it
      reads back right, with no edit on the key, exactly when the store has no such key. */
  lemma FailedReadOutlivesRollback(s: Store, bases: Tables<Hash>, es: seq<CVLEdit>, k: string)
    requires !Touched(EditCommands(es), k)
    ensures RebuiltAt(s, With(bases, k, map[]), es, k) == HashAt(s, k) <==> HashAt(s, k) == map[]
  {
    ReplayUntouched(map[], EditCommands(es), k);
  }

  /** Updating the caches and queueing the command: reads keep seeing all queued commands. */
  lemma QueuedWrite(s: Store, overlay: Tables<Hash>, bases: Tables<Hash>, cs: seq<TxCmd>, c: TxCmd,
                    overlay': Tables<Hash>, bases': Tables<Hash>)
    requires Tracks(s, overlay, Wires(cs)) && BasesTrue(s, bases) && CachesGood(overlay, bases, cs) && GoodCmd(c)
    requires overlay' == With(overlay, Wire(c).key, Effect(Peek(overlay, s, Wire(c).key), Wire(c)))
    requires || bases' == bases
             || (!Has(overlay, Wire(c).key) && bases' == With(bases, Wire(c).key, Peek(overlay, s, Wire(c).key)))
    ensures Tracks(s, overlay', Wires(cs + [c])) && BasesTrue(s, bases') && CachesGood(overlay', bases', cs + [c])
    ensures Replay(s, Wires(cs + [c])) == Exec(Replay(s, Wires(cs)), Wire(c))
  {
    WiresAppend(cs, c);
    TracksWrite(s, overlay, Wires(cs), Wire(c));
    ReplayLast(s, Wires(cs), Wire(c));
    CachesAfterWrite(overlay, bases, cs, c, At(overlay', Wire(c).key), bases', Peek(overlay, s, Wire(c).key));
  }

  // ----- the validator's edit log -----

  datatype VType = ValidateNone | ValidateAll

  datatype VOp = OpCreate | OpUpdate | OpDelete

  datatype CVLEdit = CVLEdit(vType: VType, vOp: VOp, key: string, data: Hash)

  /** A delete with fields removes those fields; without fields it removes the key. */
  function EditCommand(e: CVLEdit): Command {
    match e.vOp
    case OpCreate => HMSet(e.key, e.data)
    case OpUpdate => HMSet(e.key, e.data)
    case OpDelete => if e.data == map[] then Del(e.key) else HDel(e.key, e.data.Keys)
  }

  function EditCommands(es: seq<CVLEdit>): (ws: seq<Command>)
    ensures |ws| == |es|
  {
    seq(|es|, i requires 0 <= i < |es| => EditCommand(es[i]))
  }

  /** Logged edits name rows, and each has been validated already. */
  predicate EditKeysGood(es: seq<CVLEdit>) {
    forall i :: 0 <= i < |es| ==> RowKey(es[i].key)
  }

  predicate AllValidated(es: seq<CVLEdit>) {
    forall i :: 0 <= i < |es| ==> es[i].vType.ValidateNone?
  }

  lemma LogsAppend(es: seq<CVLEdit>, cs: seq<TxCmd>, e: CVLEdit, c: TxCmd)
    requires EditCommands(es) == Wires(cs) && EditCommand(e) == Wire(c)
    ensures EditCommands(es + [e]) == Wires(cs + [c])
  {
    assert EditCommands(es + [e]) == EditCommands(es) + [EditCommand(e)];
    WiresAppend(cs, c);
  }

  lemma TwoLogsAppend(es: seq<CVLEdit>, cs: seq<TxCmd>, e: CVLEdit, c: TxCmd, e': CVLEdit, c': TxCmd)
    requires EditCommands(es) == Wires(cs) && EditCommand(e) == Wire(c) && EditCommand(e') == Wire(c')
    ensures EditCommands(es + [e, e']) == Wires(cs + [c] + [c'])
  {
    LogsAppend(es, cs, e, c);
    LogsAppend(es + [e], cs + [c], e', c');
    assert es + [e, e'] == es + [e] + [e'];
  }

  // ----- rebuilding the overlay from base snapshots and the edit log -----

  function BaseAt(bases: Tables<Hash>, k: string): Hash {
    if Has(bases, k) then At(bases, k) else map[]
  }

  ghost predicate InRebuilt(bases: Tables<Hash>, es: seq<CVLEdit>, k: string) {
    Has(bases, k) || Touched(EditCommands(es), k)
  }

  /** What a read of k sees once the overlay is rebuilt from bases and es. */
  ghost function RebuiltAt(s: Store, bases: Tables<Hash>, es: seq<CVLEdit>, k: string): Hash {
    if InRebuilt(bases, es, k) then ReplayAt(BaseAt(bases, k), EditCommands(es), k) else HashAt(s, k)
  }

  ghost predicate IsRebuilt(overlay: Tables<Hash>, bases: Tables<Hash>, es: seq<CVLEdit>) {
    forall k ::
      && (Has(overlay, k) <==> InRebuilt(bases, es, k))
      && (Has(overlay, k) ==> At(overlay, k) == ReplayAt(BaseAt(bases, k), EditCommands(es), k))
  }

  /** One step of the playback. */
  function Played(overlay: Tables<Hash>, e: CVLEdit): Tables<Hash> {
    With(overlay, e.key, Effect(BaseAt(overlay, e.key), EditCommand(e)))
  }

  lemma TouchedAppend(ws: seq<Command>, c: Command, k: string)
    ensures Touched(ws + [c], k) <==> Touched(ws, k) || c.key == k
  {
    if Touched(ws, k) {
      var i :| 0 <= i < |ws| && ws[i].key == k;
      assert (ws + [c])[i].key == k;
    }
    if c.key == k {
      assert (ws + [c])[|ws|].key == k;
    }
  }

  lemma PlayedIsRebuilt(overlay: Tables<Hash>, bases: Tables<Hash>, es: seq<CVLEdit>, e: CVLEdit)
    requires IsRebuilt(overlay, bases, es)
    ensures IsRebuilt(Played(overlay, e), bases, es + [e])
  {
    var ws, c := EditCommands(es), EditCommand(e);
    assert EditCommands(es + [e]) == ws + [c];
    forall k
      ensures Has(Played(overlay, e), k) <==> InRebuilt(bases, es + [e], k)
      ensures Has(Played(overlay, e), k) ==>
                At(Played(overlay, e), k) == ReplayAt(BaseAt(bases, k), ws + [c], k)
    {
      TouchedAppend(ws, c, k);
      assert (ws + [c])[..|ws|] == ws;
      assert Has(overlay, k) <==> InRebuilt(bases, es, k);
      if !InRebuilt(bases, es, k) {
        ReplayUntouched(BaseAt(bases, k), ws, k);
      }
    }
  }

  lemma RebuiltPeek(s: Store, overlay: Tables<Hash>, bases: Tables<Hash>, es: seq<CVLEdit>)
    requires IsRebuilt(overlay, bases, es)
    ensures forall k :: Peek(overlay, s, k) == RebuiltAt(s, bases, es, k)
  {
  }

  /** Every saved base is what the store holds. */
  ghost predicate BasesTrue(s: Store, bases: Tables<Hash>) {
    forall k :: Has(bases, k) ==> At(bases, k) == HashAt(s, k)
  }

  /** Every saved base has an overlay entry. */
  ghost predicate Covered(overlay: Tables<Hash>, bases: Tables<Hash>) {
    forall k :: Has(bases, k) ==> Has(overlay, k)
  }

  /** The rows whose base was saved as empty, though they are stored: they could not be read. */
  function Lost(s: Store, bases: Tables<Hash>): set<string> {
    set k | k in s && Has(bases, k) && At(bases, k) == map[]
  }

  /** The store as the saved bases have it. That is the store itself until a row cannot be read. */
  function Believed(s: Store, bases: Tables<Hash>): Store {
    s - Lost(s, bases)
  }

  lemma BelievedAt(s: Store, bases: Tables<Hash>)
    ensures forall k ::
              HashAt(Believed(s, bases), k) == if Has(bases, k) && At(bases, k) == map[] then map[] else HashAt(s, k)
    ensures Compact(s) ==> Compact(Believed(s, bases))
  {
  }

  /** Nothing is lost exactly when the saved bases are what the store holds. */
  lemma BelievedIsStore(s: Store, bases: Tables<Hash>)
    requires Compact(s) && BasesTrue(Believed(s, bases), bases)
    ensures Believed(s, bases) == s <==> BasesTrue(s, bases)
  {
    BelievedAt(s, bases);
    if BasesTrue(s, bases) {
      CompactExtensional(Believed(s, bases), s);
    }
  }

  /** Reads cannot tell: what is not believed has an overlay entry. */
  lemma PeekBelieved(overlay: Tables<Hash>, s: Store, bases: Tables<Hash>)
    requires Covered(overlay, bases)
    ensures forall k :: Peek(overlay, s, k) == Peek(overlay, Believed(s, bases), k)
  {
  }

  /** Saving what the store holds changes nothing; saving an empty base for a row that could not be
      read loses that row. */
  lemma BelievedAfterSave(s: Store, bases: Tables<Hash>, k: string, h: Hash)
    requires Compact(s) && BasesTrue(Believed(s, bases), bases) && !Has(bases, k) && (h == map[] || h == HashAt(s, k))
    ensures var after := Believed(s, With(bases, k, h));
            && (h == HashAt(s, k) ==> after == Believed(s, bases))
            && (h == map[] ==> after == Believed(s, bases) - {k})
    ensures BasesTrue(Believed(s, With(bases, k, h)), With(bases, k, h))
  {
    var bases' := With(bases, k, h);
    BelievedAt(s, bases);
    BelievedAt(s, bases');
    HasWith(bases, k, h);
    forall j
      ensures HashAt(Believed(s, bases'), j) == if j == k then h else HashAt(Believed(s, bases), j)
    {
    }
    if h == HashAt(s, k) {
      CompactExtensional(Believed(s, bases'), Believed(s, bases));
    }
    if h == map[] {
      CompactExtensional(Believed(s, bases'), Believed(s, bases) - {k});
    }
  }

  /** What a write keeps of the caches, whether or not its base could be read. */
  lemma SoundWrite(s: Store, overlay: Tables<Hash>, bases: Tables<Hash>, cs: seq<TxCmd>, c: TxCmd, base: Hash,
                   overlay': Tables<Hash>, bases': Tables<Hash>, cs': seq<TxCmd>)
    requires cs' == cs || cs' == cs + [c]
    requires Compact(s) && CachesGood(overlay, bases, cs) && Covered(overlay, bases) && GoodCmd(c)
    requires BasesTrue(Believed(s, bases), bases) && overlay' == With(overlay, Wire(c).key, Effect(base, Wire(c)))
    requires || bases' == bases
             || (&& !Has(overlay, Wire(c).key) && bases' == With(bases, Wire(c).key, base)
                 && (base == map[] || base == HashAt(s, Wire(c).key)))
    ensures CachesGood(overlay', bases', cs')
    ensures Covered(overlay', bases') && BasesTrue(Believed(s, bases'), bases')
    ensures bases' == bases || base == HashAt(s, Wire(c).key) ==> Believed(s, bases') == Believed(s, bases)
    ensures bases' != bases && base == map[] ==> Believed(s, bases') == Believed(s, bases) - {Wire(c).key}
  {
    var k := Wire(c).key;
    CachesAfterWrite(overlay, bases, cs, c, Effect(base, Wire(c)), bases', base);
    assert forall i :: 0 <= i < |cs| ==> (cs + [c])[i] == cs[i];
    HasWith(overlay, k, Effect(base, Wire(c)));
    if bases' != bases {
      HasWith(bases, k, base);
      BelievedAfterSave(s, bases, k, base);
    }
  }

  lemma NothingSaved(s: Store)
    ensures Believed(s, map[]) == s
  {
  }

  lemma EmptyCaches(s: Store, overlay: Tables<Hash>, bases: Tables<Hash>)
    requires overlay == map[] && bases == map[]
    ensures Tracks(s, overlay, []) && BasesTrue(s, bases)
  {
  }

  /** A command that needs the previous hash of its key finds a saved base, or comes after
      another command on that key. */
  ghost predicate Grounded(bases: Tables<Hash>, ws: seq<Command>) {
    forall i :: 0 <= i < |ws| ==>
      ws[i].Del? || Has(bases, ws[i].key) || Touched(ws[..i], ws[i].key)
  }

  lemma GroundedPrefix(bases: Tables<Hash>, ws: seq<Command>, n: nat)
    requires Grounded(bases, ws) && n <= |ws|
    ensures Grounded(bases, ws[..n])
  {
    forall i | 0 <= i < n
      ensures ws[..n][i].Del? || Has(bases, ws[..n][i].key) || Touched(ws[..n][..i], ws[..n][i].key)
    {
      assert ws[..n][..i] == ws[..i];
      assert ws[..n][i] == ws[i];
    }
  }

  lemma GroundedAppend(bases: Tables<Hash>, bases': Tables<Hash>, ws: seq<Command>, c: Command)
    requires Grounded(bases, ws)
    requires forall k :: Has(bases, k) ==> Has(bases', k)
    requires c.Del? || Has(bases', c.key) || Touched(ws, c.key)
    ensures Grounded(bases', ws + [c])
  {
    forall i | 0 <= i < |ws + [c]|
      ensures (ws + [c])[i].Del? || Has(bases', (ws + [c])[i].key) || Touched((ws + [c])[..i], (ws + [c])[i].key)
    {
      assert (ws + [c])[..i] == ws[..i];
      if i < |ws| {
        assert (ws + [c])[i] == ws[i];
      } else {
        assert ws[..i] == ws;
      }
    }
  }

  /** Without a base, the first command on a key is a DEL, so the start does not matter. */
  lemma {:induction false} StartIrrelevant(bases: Tables<Hash>, ws: seq<Command>, k: string, g: Hash, h: Hash)
    requires Grounded(bases, ws) && !Has(bases, k) && Touched(ws, k)
    ensures ReplayAt(g, ws, k) == ReplayAt(h, ws, k)
    decreases |ws|
  {
    var init, last := ws[..|ws| - 1], ws[|ws| - 1];
    assert ws == init + [last];
    TouchedAppend(init, last, k);
    GroundedPrefix(bases, ws, |ws| - 1);
    if Touched(init, k) {
      StartIrrelevant(bases, init, k, g, h);
    }
  }

  /** Rebuilding from snapshots and edits means the same as replaying the commands. */
  lemma RebuiltIsReplay(s: Store, bases: Tables<Hash>, es: seq<CVLEdit>, ws: seq<Command>, k: string)
    requires BasesTrue(s, bases) && Grounded(bases, ws) && EditCommands(es) == ws
    ensures RebuiltAt(s, bases, es, k) == HashAt(Replay(s, ws), k)
  {
    ReplayPointwise(s, ws, k);
    if !Has(bases, k) {
      if Touched(ws, k) {
        StartIrrelevant(bases, ws, k, map[], HashAt(s, k));
      } else {
        ReplayUntouched(HashAt(s, k), ws, k);
      }
    }
  }

  /** An empty edit log, which is what a session without validation keeps, rebuilds the bare
      store: the pending commands survive a rollback exactly when they have no net effect. */
  lemma NoEditsNoPendingWrites(s: Store, bases: Tables<Hash>, ws: seq<Command>)
    requires Compact(s) && BasesTrue(s, bases)
    ensures (forall k :: RebuiltAt(s, bases, [], k) == HashAt(Replay(s, ws), k)) <==> Replay(s, ws) == s
  {
    assert EditCommands([]) == [];
    assert forall k :: RebuiltAt(s, bases, [], k) == HashAt(s, k);
    ReplayCompact(s, ws);
    if forall k :: RebuiltAt(s, bases, [], k) == HashAt(Replay(s, ws), k) {
      forall k
        ensures HashAt(Replay(s, ws), k) == HashAt(s, k)
      {
        assert RebuiltAt(s, bases, [], k) == HashAt(s, k);
      }
      CompactExtensional(Replay(s, ws), s);
    }
  }

  // ----- the undo log -----

  datatype OrigEntry = OrigEntry(value: Hash, absent: bool)

  /** What a read of k sees once the recorded prior entries are put back. */
  function UndoneAt(orig: Tables<OrigEntry>, overlay: Tables<Hash>, s: Store, k: string): Hash {
    if Has(orig, k) then (if At(orig, k).absent then HashAt(s, k) else At(orig, k).value)
    else Peek(overlay, s, k)
  }

  /** Recording the prior entry of k, if none is recorded yet, before k is overwritten. */
  function Recorded(orig: Tables<OrigEntry>, overlay: Tables<Hash>, k: string): Tables<OrigEntry> {
    if Has(orig, k) then orig
    else With(orig, k, if Has(overlay, k) then OrigEntry(At(overlay, k), false) else OrigEntry(map[], true))
  }

  lemma RecordedUndoes(orig: Tables<OrigEntry>, overlay: Tables<Hash>, s: Store, k: string, h: Hash)
    ensures forall j ::
              UndoneAt(Recorded(orig, overlay, k), With(overlay, k, h), s, j) == UndoneAt(orig, overlay, s, j)
  {
  }

  lemma RecordedCovered(orig: Tables<OrigEntry>, overlay: Tables<Hash>, k: string, h: Hash)
    requires forall j :: Has(orig, j) ==> Has(overlay, j)
    ensures forall j :: Has(Recorded(orig, overlay, k), j) ==> Has(With(overlay, k, h), j)
  {
    HasWith(overlay, k, h);
  }

  /** The overlay keys are those with a saved base or a pending command. */
  ghost predicate Accounted(overlay: Tables<Hash>, bases: Tables<Hash>, ws: seq<Command>) {
    forall k :: Has(overlay, k) <==> Has(bases, k) || Touched(ws, k)
  }

  /** A write keeps what a rollback needs, provided a missing base is saved first. */
  lemma BasesAfterWrite(s: Store, overlay: Tables<Hash>, bases: Tables<Hash>, ws: seq<Command>,
                        c: Command, h: Hash, bases': Tables<Hash>)
    requires BasesTrue(s, bases) && Grounded(bases, ws) && Accounted(overlay, bases, ws)
    requires bases' == bases || (!Has(overlay, c.key) && bases' == With(bases, c.key, HashAt(s, c.key)))
    requires c.Del? || Has(overlay, c.key) || bases' == With(bases, c.key, HashAt(s, c.key))
    ensures BasesTrue(s, bases') && Grounded(bases', ws + [c])
    ensures Accounted(With(overlay, c.key, h), bases', ws + [c])
  {
    GroundedAppend(bases, bases', ws, c);
    HasWith(overlay, c.key, h);
    HasWith(bases, c.key, HashAt(s, c.key));
    forall k
      ensures Has(With(overlay, c.key, h), k) <==> Has(bases', k) || Touched(ws + [c], k)
    {
      TouchedAppend(ws, c, k);
    }
  }

  // ----- savepoints -----

  datatype SavePoint = SavePoint(txCmdsLen: nat, cECDLen: nat, txTsOrigEntryMap: Tables<OrigEntry>)

  predicate WithinLogs(sp: Option<SavePoint>, cmds: nat, edits: nat) {
    sp.Some? ==> sp.value.txCmdsLen <= cmds && sp.value.cECDLen <= edits
  }

  /** The logs agreed when the savepoint was declared, and the undo log leads back there. */
  ghost predicate SavePointSound(sp: SavePoint, s: Store, overlay: Tables<Hash>, ws: seq<Command>, es: seq<CVLEdit>) {
    && sp.cECDLen == sp.txCmdsLen && sp.cECDLen <= |es| && sp.txCmdsLen <= |ws|
    && EditCommands(es[..sp.cECDLen]) == ws[..sp.txCmdsLen]
    && (forall k :: Has(sp.txTsOrigEntryMap, k) ==> Has(overlay, k))
    && forall k :: UndoneAt(sp.txTsOrigEntryMap, overlay, s, k) == HashAt(Replay(s, ws[..sp.txCmdsLen]), k)
  }

  /** All that a session keeps true so that a savepoint can be rolled back. */
  ghost predicate CanRewind(s: Store, overlay: Tables<Hash>, bases: Tables<Hash>, ws: seq<Command>,
                            es: seq<CVLEdit>, sp: Option<SavePoint>) {
    && BasesTrue(s, bases) && Grounded(bases, ws) && Accounted(overlay, bases, ws)
    && (sp.Some? ==> SavePointSound(sp.value, s, overlay, ws, es))
  }

  function RecordedSP(sp: SavePoint, overlay: Tables<Hash>, k: string): SavePoint {
    sp.(txTsOrigEntryMap := Recorded(sp.txTsOrigEntryMap, overlay, k))
  }

  lemma WriteCanRewind(s: Store, overlay: Tables<Hash>, bases: Tables<Hash>, ws: seq<Command>, es: seq<CVLEdit>,
                       sp: SavePoint, c: Command, overlay': Tables<Hash>, bases': Tables<Hash>)
    requires CanRewind(s, overlay, bases, ws, es, Some(sp))
    requires overlay' == With(overlay, c.key, Effect(Peek(overlay, s, c.key), c))
    requires bases' == if BaseMissing(overlay, c) then With(bases, c.key, Peek(overlay, s, c.key)) else bases
    ensures CanRewind(s, overlay', bases', ws + [c], es, Some(RecordedSP(sp, overlay, c.key)))
  {
    BasesAfterWrite(s, overlay, bases, ws, c, At(overlay', c.key), bases');
    RecordedUndoes(sp.txTsOrigEntryMap, overlay, s, c.key, At(overlay', c.key));
    RecordedCovered(sp.txTsOrigEntryMap, overlay, c.key, At(overlay', c.key));
    assert (ws + [c])[..sp.txCmdsLen] == ws[..sp.txCmdsLen];
  }

  /** A write whose base could not be read loses the row, and a rollback is as possible as before. */
  lemma FailedWriteCanRewind(s: Store, overlay: Tables<Hash>, bases: Tables<Hash>, ws: seq<Command>, es: seq<CVLEdit>,
                             sp: SavePoint, k: string, h: Hash)
    requires CanRewind(s, overlay, bases, ws, es, Some(sp)) && !Has(overlay, k)
    ensures CanRewind(s - {k}, With(overlay, k, h), With(bases, k, map[]), ws, es, Some(RecordedSP(sp, overlay, k)))
  {
    var s', orig := s - {k}, sp.txTsOrigEntryMap;
    HasWith(overlay, k, h);
    HasWith(bases, k, map[]);
    RecordedCovered(orig, overlay, k, h);
    assert Grounded(With(bases, k, map[]), ws) by {
      forall i | 0 <= i < |ws|
        ensures ws[i].Del? || Has(With(bases, k, map[]), ws[i].key) || Touched(ws[..i], ws[i].key)
      {
        assert ws[i].Del? || Has(bases, ws[i].key) || Touched(ws[..i], ws[i].key);
      }
    }
    forall j
      ensures UndoneAt(Recorded(orig, overlay, k), With(overlay, k, h), s', j) ==
              HashAt(Replay(s', ws[..sp.txCmdsLen]), j)
    {
      LostRowUndone(s, overlay, ws, sp, k, h, j);
    }
  }

  lemma LostRowUndone(s: Store, overlay: Tables<Hash>, ws: seq<Command>, sp: SavePoint, k: string, h: Hash, j: string)
    requires !Has(overlay, k) && !Has(sp.txTsOrigEntryMap, k) && !Touched(ws, k) && sp.txCmdsLen <= |ws|
    requires UndoneAt(sp.txTsOrigEntryMap, overlay, s, j) == HashAt(Replay(s, ws[..sp.txCmdsLen]), j)
    ensures UndoneAt(Recorded(sp.txTsOrigEntryMap, overlay, k), With(overlay, k, h), s - {k}, j) ==
            HashAt(Replay(s - {k}, ws[..sp.txCmdsLen]), j)
  {
    var prefix := ws[..sp.txCmdsLen];
    assert forall i :: 0 <= i < |prefix| ==> prefix[i] == ws[i];
    ReplayWithout(s, prefix, k, j);
    UndoneWithout(sp.txTsOrigEntryMap, overlay, s, k, h, j);
  }

  lemma UndoneWithout(orig: Tables<OrigEntry>, overlay: Tables<Hash>, s: Store, k: string, h: Hash, j: string)
    requires !Has(overlay, k) && !Has(orig, k)
    ensures UndoneAt(Recorded(orig, overlay, k), With(overlay, k, h), s - {k}, j) ==
            if j == k then map[] else UndoneAt(orig, overlay, s, j)
  {
    HasWith(overlay, k, h);
    HasWith(orig, k, OrigEntry(map[], true));
  }

  /** Once a row is lost and no pending command touches it, it reads as missing; other rows read as
      ever. That is the whole truth exactly when the row is not stored. */
  lemma LostRowReads(s: Store, base: Store, overlay: Tables<Hash>, bases: Tables<Hash>, ws: seq<Command>, k: string)
    requires Compact(s) && Covered(overlay, bases) && Believed(s, bases) == base - {k} && !Touched(ws, k)
    requires Tracks(base - {k}, overlay, ws)
    ensures forall j :: j != k ==> HashAt(Replay(base - {k}, ws), j) == HashAt(Replay(base, ws), j)
    ensures Peek(overlay, s, k) == map[] && HashAt(Replay(s, ws), k) == HashAt(s, k)
    ensures base == s ==> (Tracks(s, overlay, ws) <==> k !in s)
  {
    PeekBelieved(overlay, s, bases);
    forall j
      ensures j != k ==> HashAt(Replay(base - {k}, ws), j) == HashAt(Replay(base, ws), j)
      ensures j == k ==> HashAt(Replay(base - {k}, ws), j) == map[]
    {
      ReplayWithout(base, ws, k, j);
    }
    assert Peek(overlay, s, k) == HashAt(Replay(base - {k}, ws), k);
    ReplayPointwise(s, ws, k);
    ReplayUntouched(HashAt(s, k), ws, k);
    if base == s && k !in s {
      assert s - {k} == s;
    }
  }

  lemma MoreEditsCanRewind(s: Store, overlay: Tables<Hash>, bases: Tables<Hash>, ws: seq<Command>,
                           es: seq<CVLEdit>, sp: SavePoint, fs: seq<CVLEdit>)
    requires CanRewind(s, overlay, bases, ws, es, Some(sp))
    ensures CanRewind(s, overlay, bases, ws, es + fs, Some(sp))
  {
    assert (es + fs)[..sp.cECDLen] == es[..sp.cECDLen];
  }

  /** A fresh savepoint over logs that agree. */
  lemma FreshSavePoint(s: Store, overlay: Tables<Hash>, bases: Tables<Hash>, cs: seq<TxCmd>, es: seq<CVLEdit>)
    requires CanRewind(s, overlay, bases, Wires(cs), es, None)
    requires Tracks(s, overlay, Wires(cs)) && EditCommands(es) == Wires(cs)
    ensures CanRewind(s, overlay, bases, Wires(cs), es, Some(SavePoint(|cs|, |es|, map[])))
  {
    assert es[..|es|] == es && Wires(cs)[..|cs|] == Wires(cs);
    forall k
      ensures UndoneAt(map[], overlay, s, k) == HashAt(Replay(s, Wires(cs)), k)
    {
      assert Peek(overlay, s, k) == HashAt(Replay(s, Wires(cs)), k);
    }
  }

  /** After the playback of the logged edits the overlay shows the rows of the savepoint again,
      the same rows the undo log would restore, and a further savepoint can be rolled back. */
  lemma RolledBack(s: Store, overlay: Tables<Hash>, bases: Tables<Hash>, cs: seq<TxCmd>, es: seq<CVLEdit>,
                   sp: SavePoint, overlay': Tables<Hash>)
    requires CanRewind(s, overlay, bases, Wires(cs), es, Some(sp))
    requires IsRebuilt(overlay', bases, es[..sp.cECDLen])
    ensures EditCommands(es[..sp.cECDLen]) == Wires(cs[..sp.txCmdsLen])
    ensures Tracks(s, overlay', Wires(cs[..sp.txCmdsLen]))
    ensures forall k :: Peek(overlay', s, k) == UndoneAt(sp.txTsOrigEntryMap, overlay, s, k)
    ensures CanRewind(s, overlay', bases, Wires(cs[..sp.txCmdsLen]), es[..sp.cECDLen], None)
  {
    var n := sp.txCmdsLen;
    WiresPrefix(cs, n);
    GroundedPrefix(bases, Wires(cs), n);
    forall k
      ensures Peek(overlay', s, k) == HashAt(Replay(s, Wires(cs)[..n]), k)
      ensures Peek(overlay', s, k) == UndoneAt(sp.txTsOrigEntryMap, overlay, s, k)
    {
      RebuiltIsReplay(s, bases, es[..n], Wires(cs)[..n], k);
      RebuiltPeek(s, overlay', bases, es[..n]);
      assert UndoneAt(sp.txTsOrigEntryMap, overlay, s, k) == HashAt(Replay(s, Wires(cs)[..n]), k);
    }
  }

  lemma PlayedWellKeyed(overlay: Tables<Hash>, e: CVLEdit)
    requires WellKeyed(overlay) && RowKey(e.key) && Head(e.key) in overlay
    ensures WellKeyed(Played(overlay, e)) && Played(overlay, e).Keys == overlay.Keys
  {
  }

  /** Reloading the bases into emptied tables starts the playback. */
  lemma ReloadedIsRebuilt(overlay: Tables<Hash>, bases: Tables<Hash>)
    requires forall t :: t in bases ==> t in overlay
    requires forall t :: t in overlay ==> overlay[t] == if t in bases then bases[t] else map[]
    ensures IsRebuilt(overlay, bases, [])
  {
    assert EditCommands([]) == [];
  }
}
