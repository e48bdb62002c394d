/** A whole config session over the candidate CONFIG_DB: a transaction that starts with the
    session, nested transactions as savepoints, and the final commit. The calls follow
    translib/cs/cs_tx.go and the write handlers of translib/translib.go. */
module SessionTransactions {
  import opened Wrappers
  import opened Redis
  import opened Keys
  import opened Overlay
  import opened ConfigDB

  /** One nested transaction: its write calls, and whether its owner aborts it in the end. Whatever
      an owner decides on the way, the calls it makes and its last decision are such a pair. */
  datatype Tx = Tx(calls: seq<Request>, giveUp: bool)

  /** What came of it: how every call ended, the request it carried out, the commands they queued,
      and whether the transaction was released. */
  datatype Record = Record(outcomes: seq<Outcome>, acted: seq<Request>, queued: seq<TxCmd>, released: bool)

  /** The requests of the calls that succeeded, in order. */
  function Successes(outcomes: seq<Outcome>, acted: seq<Request>): seq<Request>
    requires |outcomes| == |acted|
    decreases |acted|
  {
    if acted == [] then []
    else
      var n := |acted| - 1;
      Successes(outcomes[..n], acted[..n]) + if outcomes[n].Pass? then [acted[n]] else []
  }

  /** Did every call leave the logs in step? If one failed past validation, the transaction has to
      be rolled back. */
  predicate AllHarmless(outcomes: seq<Outcome>) {
    forall i :: 0 <= i < |outcomes| ==> DB.Harmless(outcomes[i])
  }

  /** Every call so far carried out its request, or the merge that a failed read makes of it. */
  predicate AllActFor(acted: seq<Request>, calls: seq<Request>, reliable: bool) {
    |acted| <= |calls| && forall i :: 0 <= i < |acted| ==> ActsFor(acted[i], calls[i], reliable)
  }

  /** The record covers every call of the transaction, and says what was decided. */
  predicate Describes(r: Record, tx: Tx, reliable: bool) {
    && |r.outcomes| == |r.acted| == |tx.calls|
    && AllActFor(r.acted, tx.calls, reliable)
    && (r.released <==> !tx.giveUp && AllHarmless(r.outcomes))
  }

  /** The requests, one after the other. */
  function MeaningAll(rs: seq<Request>, s: Store): Store {
    Fold(Meaning, rs, s)
  }

  /** What a transaction adds to its session: nothing, unless it is released. */
  function Effects(r: Record): seq<Request> {
    if r.released && |r.outcomes| == |r.acted| then Successes(r.outcomes, r.acted) else []
  }

  /** The transactions of a session, one after the other. */
  function ApplyReleased(rs: seq<Record>, s: Store): Store
    decreases |rs|
  {
    if rs == [] then s else MeaningAll(Effects(rs[|rs| - 1]), ApplyReleased(rs[..|rs| - 1], s))
  }

  /** The successful calls of the released transactions, in order. */
  function ReleasedCalls(rs: seq<Record>): seq<Request>
    decreases |rs|
  {
    if rs == [] then [] else ReleasedCalls(rs[..|rs| - 1]) + Effects(rs[|rs| - 1])
  }

  /** A session amounts to the successful calls of its released transactions: the rolled back ones
      leave no trace, wherever they stood. */
  lemma {:induction false} OnlyReleasedCallsCount(rs: seq<Record>, s: Store)
    ensures ApplyReleased(rs, s) == MeaningAll(ReleasedCalls(rs), s)
    decreases |rs|
  {
    if rs != [] {
      var init, last := rs[..|rs| - 1], rs[|rs| - 1];
      OnlyReleasedCallsCount(init, s);
      FoldConcat(Meaning, ReleasedCalls(init), Effects(last), s);
    }
  }

  /** The commands of the released transactions, in order. */
  function QueuedBy(rs: seq<Record>): seq<TxCmd>
    decreases |rs|
  {
    if rs == [] then [] else QueuedBy(rs[..|rs| - 1]) + Queued(rs[|rs| - 1])
  }

  function Queued(r: Record): seq<TxCmd> {
    if r.released then r.queued else []
  }

  // ----- rows that could not be read -----

  /** Some call on row k failed because the row could not be read. */
  ghost predicate FailedOn(outcomes: seq<Outcome>, calls: seq<Request>, k: string) {
    exists i :: 0 <= i < |outcomes| && i < |calls| && outcomes[i] == Fail(RedisFailure)
                && Key2Redis(calls[i].ts, calls[i].key) == k
  }

  ghost predicate Unread(rs: seq<Record>, script: seq<Tx>, k: string) {
    exists i :: 0 <= i < |rs| && i < |script| && FailedOn(rs[i].outcomes, script[i].calls, k)
  }

  /** What a request makes of a row depends on that row only. */
  lemma MeaningAt(r: Request, s: Store, t: Store, k: string)
    requires HashAt(s, k) == HashAt(t, k)
    ensures HashAt(Meaning(r, s), k) == HashAt(Meaning(r, t), k)
  {
  }

  lemma {:induction false} MeaningAllAt(rs: seq<Request>, s: Store, t: Store, k: string)
    requires HashAt(s, k) == HashAt(t, k)
    ensures HashAt(MeaningAll(rs, s), k) == HashAt(MeaningAll(rs, t), k)
    decreases |rs|
  {
    if rs != [] {
      var init := rs[..|rs| - 1];
      MeaningAllAt(init, s, t, k);
      MeaningAt(rs[|rs| - 1], MeaningAll(init, s), MeaningAll(init, t), k);
    }
  }

  lemma MeaningCompact(r: Request, s: Store)
    requires Compact(s)
    ensures Compact(Meaning(r, s))
  {
    if !r.DeleteEntry? && r.value != map[] {
      var f :| f in r.value;
      assert f in HashAt(s, Key2Redis(r.ts, r.key)) + r.value;
    }
  }

  lemma {:induction false} MeaningAllCompact(rs: seq<Request>, s: Store)
    requires Compact(s)
    ensures Compact(MeaningAll(rs, s))
    decreases |rs|
  {
    if rs != [] {
      MeaningAllCompact(rs[..|rs| - 1], s);
      MeaningCompact(rs[|rs| - 1], MeaningAll(rs[..|rs| - 1], s));
    }
  }

  lemma NextSuccess(outcomes: seq<Outcome>, acted: seq<Request>, e: Outcome, a: Request, s: Store)
    requires |outcomes| == |acted|
    ensures MeaningAll(Successes(outcomes + [e], acted + [a]), s) ==
            var before := MeaningAll(Successes(outcomes, acted), s);
            if e.Pass? then Meaning(a, before) else before
  {
    assert (outcomes + [e])[..|outcomes|] == outcomes && (acted + [a])[..|acted|] == acted;
    if e.Pass? {
      FoldLast(Meaning, Successes(outcomes, acted), a, s);
    } else {
      assert Successes(outcomes, acted) + [] == Successes(outcomes, acted);
    }
  }

  predicate GoodCalls(rs: seq<Request>) {
    forall i :: 0 <= i < |rs| ==> GoodRequest(rs[i])
  }

  /** Between two nested transactions. */
  ghost predicate Ready(d: DB)
    reads d, d.client
  {
    d.Valid() && d.Rewindable() && d.InStep() && d.savePoint.None?
  }

  /** After a rollback that failed: the handle refuses further writes and the commit. */
  ghost predicate Poisoned(d: DB)
    reads d, d.client
  {
    d.Valid() && d.err.Fail? && d.savePoint.None?
  }

  /** Inside a nested transaction, whatever has failed there. */
  ghost predicate Open(d: DB)
    reads d, d.client
  {
    d.Sound() && d.Rewindable() && d.savePoint.Some?
  }

  /** What every call inside a nested transaction keeps. */
  twostate predicate Kept(d: DB)
    requires old(Open(d))
    reads d, d.client
  {
    && Open(d) && d.client.store == old(d.client.store)
    && d.savePoint.value.txCmdsLen == old(d.savePoint).value.txCmdsLen
    && d.txCmds[..d.savePoint.value.txCmdsLen] == old(d.txCmds[..d.savePoint.value.txCmdsLen])
  }

  method PerformOne(d: DB, r: Request) returns (e: Outcome, acted: Request)
    requires Open(d) && GoodRequest(r)
    modifies d, d.client`store, d.client`updated
    ensures Kept(d)
    ensures || d.Base() == old(d.Base())
            || (e == Fail(RedisFailure) && d.Base() == old(d.Base()) - {Key2Redis(r.ts, r.key)})
    ensures e == Fail(RedisFailure) ==> !d.client.reliable
    ensures ActsFor(acted, r, d.client.reliable)
    ensures d.Harmless(e) && old(d.InStep()) && old(d.Truthful()) ==>
              && d.InStep() && d.Truthful()
              && d.Visible() == if e.Pass? then Meaning(acted, old(d.Visible())) else old(d.Visible())
    ensures old(d.Smooth()) ==> e.Pass? && d.Smooth()
  {
    e, acted := d.Perform(r);
  }

  /** The calls so far did not change what a row is built on, unless it could not be read. */
  ghost predicate SameBut(s: Store, t: Store, outcomes: seq<Outcome>, calls: seq<Request>) {
    forall k :: !FailedOn(outcomes, calls, k) ==> HashAt(s, k) == HashAt(t, k)
  }

  lemma SameButNext(s: Store, t: Store, u: Store, outcomes: seq<Outcome>, e: Outcome, calls: seq<Request>)
    requires SameBut(s, t, outcomes, calls) && |outcomes| < |calls|
    requires var r := calls[|outcomes|];
             u == t || (e == Fail(RedisFailure) && u == t - {Key2Redis(r.ts, r.key)})
    ensures SameBut(s, u, outcomes + [e], calls)
  {
    var n := |outcomes|;
    forall k | !FailedOn(outcomes + [e], calls, k)
      ensures HashAt(s, k) == HashAt(u, k)
    {
      assert (outcomes + [e])[n] == e;
      assert forall i :: 0 <= i < n ==> (outcomes + [e])[i] == outcomes[i];
    }
  }

  /** Where the calls stand that were made since the visible rows were v over the base s. */
  ghost predicate Progress(d: DB, s: Store, v: Store, outcomes: seq<Outcome>, acted: seq<Request>, calls: seq<Request>)
    reads d, d.client
  {
    && |outcomes| == |acted| && AllActFor(acted, calls, d.client.reliable)
    && SameBut(s, d.Base(), outcomes, calls)
    && (AllHarmless(outcomes) ==>
          d.InStep() && d.Truthful() && d.Visible() == MeaningAll(Successes(outcomes, acted), v))
  }

  method PerformNext(d: DB, calls: seq<Request>, outcomes: seq<Outcome>, acted: seq<Request>,
                     ghost s: Store, ghost v: Store)
    returns (e: Outcome, a: Request)
    requires Open(d) && |outcomes| < |calls| && GoodRequest(calls[|outcomes|])
    requires Progress(d, s, v, outcomes, acted, calls)
    modifies d, d.client`store, d.client`updated
    ensures Kept(d) && Progress(d, s, v, outcomes + [e], acted + [a], calls)
    ensures old(d.Smooth()) ==> e.Pass? && d.Smooth()
  {
    ghost var before := d.Base();
    e, a := PerformOne(d, calls[|outcomes|]);
    SameButNext(s, before, d.Base(), outcomes, e, calls);
    NextSuccess(outcomes, acted, e, a, v);
    HarmlessNext(outcomes, e);
  }

  /** All the calls of a transaction, failed ones included. */
  method PerformAll(d: DB, rs: seq<Request>) returns (outcomes: seq<Outcome>, acted: seq<Request>)
    requires Open(d) && d.Truthful() && d.InStep() && GoodCalls(rs)
    modifies d, d.client`store, d.client`updated
    ensures Kept(d) && |outcomes| == |rs|
    ensures Progress(d, old(d.Base()), old(d.Visible()), outcomes, acted, rs)
    ensures old(d.Smooth()) ==> d.Smooth() && AllPass(outcomes)
  {
    outcomes, acted := [], [];
    ghost var s, v := d.Base(), d.Visible();
    while |outcomes| < |rs|
      invariant |outcomes| <= |rs| && Kept(d) && Progress(d, s, v, outcomes, acted, rs)
      invariant old(d.Smooth()) ==> d.Smooth() && AllPass(outcomes)
      decreases |rs| - |outcomes|
    {
      var e, a := PerformNext(d, rs, outcomes, acted, s, v);
      outcomes, acted := outcomes + [e], acted + [a];
    }
  }

  predicate AllPass(outcomes: seq<Outcome>) {
    forall i :: 0 <= i < |outcomes| ==> outcomes[i].Pass?
  }

  lemma HarmlessNext(outcomes: seq<Outcome>, e: Outcome)
    ensures AllHarmless(outcomes + [e]) <==> AllHarmless(outcomes) && DB.Harmless(e)
  {
    if AllHarmless(outcomes + [e]) {
      forall i | 0 <= i < |outcomes|
        ensures DB.Harmless(outcomes[i])
      {
        assert (outcomes + [e])[i] == outcomes[i];
      }
      assert (outcomes + [e])[|outcomes|] == e;
    }
  }

  // ----- transaction calls: savepoints on session handles, real transactions on others -----

  /** Session.StartTx. ccDB is the candidate database of the caller's session, if any; either
      way a session handle gets a savepoint. */
  method StartTx(inSession: bool, ccDB: DB?, d: DB, watch: set<string>) returns (e: Outcome)
    requires d.Sound() && (ccDB == d ==> d.opts.isSession)
    modifies d`savePoint, d`txState, d`txTsEntryMap, d`txTsEntryHGetAll, d`cvOpen
    ensures d.opts.isSession ==>
              && d.Sound() && (old(d.Truthful()) ==> d.Truthful()) && (e.Pass? <==> old(d.savePoint).None?)
              && unchanged(d`txState, d`txTsEntryMap, d`txTsEntryHGetAll, d`cvOpen)
              && (e.Pass? ==>
                    && d.savePoint == Some(SavePoint(|d.txCmds|, |d.cvlEditConfigData|, map[]))
                    && d.AtSavePoint() == d.Visible())
              && (e.Pass? && old(d.Valid()) && old(d.Rewindable()) && d.InStep() ==> d.Rewindable())
    ensures !d.opts.isSession ==>
              && d.savePoint.None? && (e.Pass? ==> old(d.txState).TxNone? && d.txState.TxWatch?)
              && (old(d.txState).TxNone? ==> d.Valid() && d.Visible() == d.client.store)
  {
    if (!inSession && d == ccDB) || d.opts.isSession {
      e := d.DeclareSP();
    } else {
      e := d.StartTx(watch);
    }
  }

  /** Session.CommitTx: on a session handle nothing reaches the store. */
  method CommitTx(ccDB: DB?, d: DB) returns (e: Outcome)
    requires d.Sound() && (ccDB == d ==> d.opts.isSession)
    modifies d`savePoint, d`txState, d`txCmds, d`txTsEntryMap, d`txTsEntryHGetAll, d`cvlEditConfigData, d`cvOpen
    modifies d.client`store, d.client`inMulti, d.client`queue, d.client`updated, d.client`queuedUpdates
    ensures d.Sound() && (old(d.Truthful()) ==> d.Truthful())
    ensures d.opts.isSession ==>
              && (e.Pass? <==> old(d.savePoint).Some?) && d.savePoint == (if e.Pass? then None else old(d.savePoint))
              && d.client.store == old(d.client.store) && d.txCmds == old(d.txCmds) && d.txState == old(d.txState)
              && d.Base() == old(d.Base())
              && (old(d.InStep()) ==> d.InStep()) && (old(d.Rewindable()) ==> d.Rewindable())
    ensures !d.opts.isSession ==>
              d.Valid() && d.client.store == if e.Pass? then old(d.Promised()) else old(d.client.store)
  {
    if d == ccDB || d.opts.isSession {
      e := d.ReleaseSP();
    } else {
      e := d.CommitTx();
    }
  }

  /** Session.AbortTx. */
  method AbortTx(ccDB: DB?, d: DB) returns (e: Outcome)
    requires d.Sound() && d.Playable() && (ccDB == d ==> d.opts.isSession)
    modifies d`savePoint, d`txState, d`txCmds, d`txTsEntryMap, d`txTsEntryHGetAll, d`cvlEditConfigData, d`cvOpen, d`err
    ensures d.opts.isSession && old(d.Rewindable()) && old(d.savePoint).Some? ==>
              && d.Valid() && d.savePoint.None? && d.err == (if e.Pass? then Pass else e) && d.Base() == old(d.Base())
              && d.txCmds == old(d.txCmds[..d.savePoint.value.txCmdsLen])
              && (e.Pass? ==> d.Rewindable() && d.InStep() && d.Visible() == old(d.AtSavePoint()))
              && (d.acceptsAll ==> e.Pass?) && d.txState == old(d.txState)
    ensures !d.opts.isSession ==> d.Valid() && d.txState.TxNone? && d.Visible() == d.client.store
  {
    if d == ccDB || d.opts.isSession {
      e := d.Rollback2SP();
    } else {
      e := d.AbortTx();
    }
  }

  /** The end of a transaction whose calls are done. The owner may abort for any reason of its own;
      a transaction with a call that failed past validation is not released. */
  method EndTransaction(d: DB, tx: Tx, outcomes: seq<Outcome>, acted: seq<Request>) returns (r: Record)
    requires Open(d) && |outcomes| == |acted|
    requires AllHarmless(outcomes) ==> d.InStep() && d.Truthful()
    modifies d, d.client`store, d.client`inMulti, d.client`queue, d.client`updated, d.client`queuedUpdates
    ensures d.client.store == old(d.client.store) && d.Base() == old(d.Base())
    ensures r == Record(outcomes, acted, old(d.txCmds[d.savePoint.value.txCmdsLen..]),
                        !tx.giveUp && AllHarmless(outcomes))
    ensures r.released ==> Ready(d) && d.txCmds == old(d.txCmds)
    ensures !r.released ==> Poisoned(d) || (Ready(d) && d.txCmds == old(d.txCmds[..d.savePoint.value.txCmdsLen]))
    ensures old(d.Smooth()) ==> Ready(d) && d.Smooth()
  {
    var e;
    r := Record(outcomes, acted, d.txCmds[d.savePoint.value.txCmdsLen..], !tx.giveUp && AllHarmless(outcomes));
    if r.released {
      e := CommitTx(d, d);
    } else {
      d.RewindableIsPlayable();
      e := AbortTx(d, d);
    }
  }

  /** StartTx, the calls of one transaction, then CommitTx or AbortTx. */
  method RunTransaction(d: DB, tx: Tx) returns (r: Record)
    requires Ready(d) && GoodCalls(tx.calls)
    modifies d, d.client`store, d.client`inMulti, d.client`queue, d.client`updated, d.client`queuedUpdates
    ensures d.client.store == old(d.client.store) && SameBut(old(d.Base()), d.Base(), r.outcomes, tx.calls)
    ensures Describes(r, tx, d.client.reliable) && (Ready(d) || (!r.released && Poisoned(d)))
    ensures Ready(d) ==> d.txCmds == old(d.txCmds) + Queued(r)
    ensures Ready(d) ==> SameBut(MeaningAll(Effects(r), old(d.Visible())), d.Visible(), r.outcomes, tx.calls)
    ensures old(d.Smooth()) ==> Ready(d) && d.Smooth() && AllPass(r.outcomes)
  {
    ghost var s, v, cs := d.Base(), d.Visible(), d.txCmds;
    var outcomes, acted := StartAndPerform(d, tx.calls);
    ghost var v', queued := d.Visible(), d.txCmds[|cs|..];
    assert d.txCmds == cs + queued;
    r := EndTransaction(d, tx, outcomes, acted);
    TransactionResult(s, d.Base(), cs, v', r, tx.calls);
  }

  method StartAndPerform(d: DB, calls: seq<Request>) returns (outcomes: seq<Outcome>, acted: seq<Request>)
    requires Ready(d) && GoodCalls(calls)
    modifies d, d.client`store, d.client`updated
    ensures Open(d) && d.client.store == old(d.client.store) && |outcomes| == |calls|
    ensures d.savePoint.value.txCmdsLen == |old(d.txCmds)| && old(d.txCmds) <= d.txCmds
    ensures Progress(d, old(d.Base()), old(d.Visible()), outcomes, acted, calls)
    ensures old(d.Smooth()) ==> d.Smooth() && AllPass(outcomes)
  {
    Begin(d);
    ghost var before := d.txCmds;
    outcomes, acted := PerformAll(d, calls);
    assert before == d.txCmds[..|before|];
  }

  method Begin(d: DB)
    requires Ready(d)
    modifies d`savePoint, d`txState, d`txTsEntryMap, d`txTsEntryHGetAll, d`cvOpen
    ensures Open(d) && d.Truthful() && d.InStep() && d.savePoint.value.txCmdsLen == |d.txCmds|
    ensures d.Base() == old(d.Base()) && d.Visible() == old(d.Visible()) && (old(d.Smooth()) ==> d.Smooth())
  {
    var _ := StartTx(true, d, d, {});
  }

  lemma TransactionResult(s: Store, t: Store, cs: seq<TxCmd>, v: Store, r: Record, calls: seq<Request>)
    requires SameBut(s, t, r.outcomes, calls)
    requires r.released ==> v == MeaningAll(Effects(r), Replay(s, Wires(cs))) && v == Replay(t, Wires(cs + r.queued))
    ensures SameBut(MeaningAll(Effects(r), Replay(s, Wires(cs))), Replay(t, Wires(cs + Queued(r))), r.outcomes, calls)
  {
    if !r.released {
      assert cs + Queued(r) == cs;
      ReplaySameBut(s, t, Wires(cs), r.outcomes, calls);
    }
  }

  lemma ReplaySameBut(s: Store, t: Store, ws: seq<Command>, outcomes: seq<Outcome>, calls: seq<Request>)
    requires SameBut(s, t, outcomes, calls)
    ensures SameBut(Replay(s, ws), Replay(t, ws), outcomes, calls)
  {
    forall k | !FailedOn(outcomes, calls, k)
      ensures HashAt(Replay(s, ws), k) == HashAt(Replay(t, ws), k)
    {
      ReplayPointwise(s, ws, k);
      ReplayPointwise(t, ws, k);
    }
  }

  /** The records of the transactions run so far. */
  predicate AllDescribed(rs: seq<Record>, script: seq<Tx>, reliable: bool) {
    |rs| <= |script| && forall i :: 0 <= i < |rs| ==> Describes(rs[i], script[i], reliable)
  }

  predicate AllPassed(rs: seq<Record>) {
    forall i :: 0 <= i < |rs| ==> AllPass(rs[i].outcomes)
  }

  /** Rows that could be read are what the released transactions make of the stored ones. */
  ghost predicate AsReleased(s: Store, t: Store, rs: seq<Record>, script: seq<Tx>) {
    forall k :: !Unread(rs, script, k) ==> HashAt(ApplyReleased(rs, s), k) == HashAt(t, k)
  }

  lemma UnreadNext(rs: seq<Record>, r: Record, script: seq<Tx>, k: string)
    requires |rs| < |script|
    ensures Unread(rs + [r], script, k) <==> Unread(rs, script, k) || FailedOn(r.outcomes, script[|rs|].calls, k)
  {
    if i :| 0 <= i < |rs| && i < |script| && FailedOn(rs[i].outcomes, script[i].calls, k) {
      assert (rs + [r])[i] == rs[i];
    }
    assert (rs + [r])[|rs|] == r;
  }

  lemma AsReleasedNext(s: Store, t: Store, u: Store, rs: seq<Record>, r: Record, script: seq<Tx>)
    requires AsReleased(s, t, rs, script) && |rs| < |script|
    requires SameBut(MeaningAll(Effects(r), t), u, r.outcomes, script[|rs|].calls)
    ensures AsReleased(s, u, rs + [r], script)
  {
    assert (rs + [r])[..|rs|] == rs;
    forall k | !Unread(rs + [r], script, k)
      ensures HashAt(ApplyReleased(rs + [r], s), k) == HashAt(u, k)
    {
      UnreadNext(rs, r, script, k);
      MeaningAllAt(Effects(r), ApplyReleased(rs, s), t, k);
    }
  }

  lemma ReadableNext(s: Store, t: Store, u: Store, rs: seq<Record>, r: Record, script: seq<Tx>)
    requires |rs| < |script| && SameBut(t, u, r.outcomes, script[|rs|].calls) && Readable(s, t, rs, script)
    ensures Readable(s, u, rs + [r], script)
  {
    forall k | !Unread(rs + [r], script, k)
      ensures HashAt(s, k) == HashAt(u, k)
    {
      UnreadNext(rs, r, script, k);
    }
  }

  /** What the handle builds on differs in unread rows only. */
  ghost predicate Readable(s: Store, t: Store, rs: seq<Record>, script: seq<Tx>) {
    forall k :: !Unread(rs, script, k) ==> HashAt(s, k) == HashAt(t, k)
  }

  /** Where the session stands that started over the store s without pending commands. */
  ghost predicate Standing(d: DB, s: Store, rs: seq<Record>, script: seq<Tx>)
    reads d, d.client
  {
    && d.client.store == s && (Ready(d) || Poisoned(d)) && AllDescribed(rs, script, d.client.reliable)
    && Readable(s, d.Base(), rs, script)
    && (Ready(d) ==> d.txCmds == QueuedBy(rs) && AsReleased(s, d.Visible(), rs, script))
  }

  lemma NextRecord(rs: seq<Record>, r: Record, script: seq<Tx>, reliable: bool)
    requires AllDescribed(rs, script, reliable) && |rs| < |script| && Describes(r, script[|rs|], reliable)
    ensures AllDescribed(rs + [r], script, reliable) && QueuedBy(rs + [r]) == QueuedBy(rs) + Queued(r)
  {
    assert (rs + [r])[..|rs|] == rs;
  }

  method RunNext(d: DB, script: seq<Tx>, rs: seq<Record>, ghost s: Store) returns (r: Record)
    requires Standing(d, s, rs, script) && Ready(d) && |rs| < |script| && GoodCalls(script[|rs|].calls)
    modifies d, d.client`store, d.client`inMulti, d.client`queue, d.client`updated, d.client`queuedUpdates
    ensures Standing(d, s, rs + [r], script)
    ensures old(d.Smooth()) ==> Ready(d) && d.Smooth() && AllPass(r.outcomes)
  {
    ghost var visible, base := d.Visible(), d.Base();
    r := RunTransaction(d, script[|rs|]);
    NextRecord(rs, r, script, d.client.reliable);
    ReadableNext(s, base, d.Base(), rs, r, script);
    if d.err.Pass? {
      AsReleasedNext(s, visible, d.Visible(), rs, r, script);
    }
  }

  /** The nested transactions in order, until a rollback fails. */
  method RunTransactions(d: DB, script: seq<Tx>) returns (rs: seq<Record>)
    requires Ready(d) && d.txCmds == [] && d.Base() == d.client.store
    requires forall i :: 0 <= i < |script| ==> GoodCalls(script[i].calls)
    modifies d, d.client`store, d.client`inMulti, d.client`queue, d.client`updated, d.client`queuedUpdates
    ensures Standing(d, old(d.client.store), rs, script)
    ensures Ready(d) ==> |rs| == |script|
    ensures old(d.Smooth()) ==> Ready(d) && d.Smooth() && AllPassed(rs)
  {
    rs := [];
    ghost var s := d.client.store;
    while |rs| < |script| && d.err.Pass?
      invariant Standing(d, s, rs, script)
      invariant old(d.Smooth()) ==> Ready(d) && d.Smooth() && AllPassed(rs)
      decreases |script| - |rs|
    {
      var r := RunNext(d, script, rs, s);
      rs := rs + [r];
    }
  }

  /** A session: it starts a transaction, runs the nested ones in order until a rollback fails, and
      commits. The store then holds what the released transactions make of it, in order: the commands
      they queued, and for every row that could be read the meaning of their successful calls. When
      nothing stands in the way, every call succeeds, every transaction that is not given up is
      released, and the commit succeeds. */
  method RunSession(d: DB, script: seq<Tx>) returns (rs: seq<Record>, e: Outcome)
    requires d.Valid() && d.opts.isSession && !d.opts.disableCVLCheck
    requires d.txState.TxNone? && d.savePoint.None? && d.err.Pass?
    requires forall i :: 0 <= i < |script| ==> GoodCalls(script[i].calls)
    modifies d, d.client
    ensures e.Pass? ==>
              && |rs| == |script| && AllDescribed(rs, script, d.client.reliable)
              && d.client.store == Replay(old(d.client.store), Wires(QueuedBy(rs)))
              && AsReleased(old(d.client.store), d.client.store, rs, script)
    ensures e.Pass? && (forall k :: !Unread(rs, script, k)) ==>
              d.client.store == ApplyReleased(rs, old(d.client.store))
    ensures e.Fail? ==> d.client.store == old(d.client.store)
    ensures old(d.Smooth()) && !old(d.client.watchBroken) ==>
              e.Pass? && AllPassed(rs) && d.client.store == ApplyReleased(rs, old(d.client.store))
  {
    rs := [];
    e := d.StartTx({UpdatedFlag("*")});
    if e.Fail? {
      return;
    }
    rs := RunTransactions(d, script);
    e := CommitSession(d, rs, script, d.client.store);
  }

  method CommitSession(d: DB, rs: seq<Record>, script: seq<Tx>, ghost s: Store) returns (e: Outcome)
    requires Standing(d, s, rs, script)
    modifies d, d.client
    ensures d.client.store == if e.Pass? then Replay(s, Wires(QueuedBy(rs))) else s
    ensures e.Pass? ==>
              && old(Ready(d)) && AsReleased(s, d.client.store, rs, script)
              && (AllPassed(rs) || (forall k :: !Unread(rs, script, k)) ==> d.client.store == ApplyReleased(rs, s))
    ensures old(Ready(d)) && d.client.reliable && !old(d.client.watchBroken) ==> e.Pass?
  {
    if d.err.Pass? {
      SessionResult(s, d.Base(), d.txCmds, rs, script);
    }
    e := d.CommitTx();
  }

  lemma SessionResult(s: Store, base: Store, cs: seq<TxCmd>, rs: seq<Record>, script: seq<Tx>)
    requires Compact(s) && Readable(s, base, rs, script) && AsReleased(s, Replay(base, Wires(cs)), rs, script)
    ensures AsReleased(s, Replay(s, Wires(cs)), rs, script)
    ensures AllPassed(rs) || (forall k :: !Unread(rs, script, k)) ==> Replay(s, Wires(cs)) == ApplyReleased(rs, s)
  {
    forall k | !Unread(rs, script, k)
      ensures HashAt(Replay(s, Wires(cs)), k) == HashAt(Replay(base, Wires(cs)), k)
    {
      ReplayPointwise(s, Wires(cs), k);
      ReplayPointwise(base, Wires(cs), k);
    }
    ReplayCompact(s, Wires(cs));
    EverythingRead(s, Replay(s, Wires(cs)), rs, script);
    PassedIsRead(rs, script);
  }

  lemma {:induction false} ApplyReleasedCompact(rs: seq<Record>, s: Store)
    requires Compact(s)
    ensures Compact(ApplyReleased(rs, s))
    decreases |rs|
  {
    if rs != [] {
      ApplyReleasedCompact(rs[..|rs| - 1], s);
      MeaningAllCompact(Effects(rs[|rs| - 1]), ApplyReleased(rs[..|rs| - 1], s));
    }
  }

  lemma EverythingRead(s: Store, t: Store, rs: seq<Record>, script: seq<Tx>)
    requires Compact(s) && Compact(t)
    ensures AsReleased(s, t, rs, script) && (forall k :: !Unread(rs, script, k)) ==> t == ApplyReleased(rs, s)
  {
    ApplyReleasedCompact(rs, s);
    if AsReleased(s, t, rs, script) && forall k :: !Unread(rs, script, k) {
      CompactExtensional(ApplyReleased(rs, s), t);
    }
  }

  lemma PassedIsRead(rs: seq<Record>, script: seq<Tx>)
    ensures AllPassed(rs) ==> forall k :: !Unread(rs, script, k)
  {
  }

  // ----- where rolling back does not bring everything back -----

  /** A write inside a savepoint whose row cannot be read, and then the rollback: every other row is
      back, and this one reads as missing from now on. That is right exactly when it is not stored. */
  method FailedReadRolledBack(d: DB, c: TxCmd) returns (e: Outcome, back: Outcome)
    requires d.Valid() && d.Rewindable() && d.savePoint.Some? && GoodCmd(c)
    modifies d`txState, d`txCmds, d`txTsEntryMap, d`txTsEntryHGetAll, d`savePoint, d`cvlEditConfigData, d`cvOpen, d`err
    ensures e.Fail? && back.Pass? ==>
              && Ready(d) && d.Base() == old(d.Base()) - {Wire(c).key}
              && d.txCmds == old(d.txCmds[..d.savePoint.value.txCmdsLen])
    ensures e.Fail? && back.Pass? ==>
              && ReadsWithout(d, old(d.Base()), Wire(c).key)
              && (old(d.Base()) == d.client.store ==>
                    (Tracks(d.client.store, d.txTsEntryMap, Wires(d.txCmds)) <==> Wire(c).key !in d.client.store))
  {
    ghost var s, k := d.Base(), Wire(c).key;
    assert !Has(d.txTsEntryMap, k) ==> !Touched(Wires(d.txCmds), k);
    e := d.WriteTx(c);
    back := e;
    if e.Fail? {
      back := RollBackWithout(d, s, k);
    }
  }

  /** Row k reads as missing, though a commit would leave it as it is stored; every other row reads as
      what the pending commands make of it over the store s. */
  ghost predicate ReadsWithout(d: DB, s: Store, k: string)
    reads d, d.client
  {
    && (forall j :: j != k ==> HashAt(d.Visible(), j) == HashAt(Replay(s, Wires(d.txCmds)), j))
    && Peek(d.txTsEntryMap, d.client.store, k) == map[]
    && HashAt(d.Promised(), k) == HashAt(d.client.store, k)
  }

  method RollBackWithout(d: DB, ghost s: Store, ghost k: string) returns (back: Outcome)
    requires Open(d) && d.Base() == s - {k} && !Touched(Wires(d.txCmds), k)
    modifies d`txCmds, d`txTsEntryMap, d`txTsEntryHGetAll, d`savePoint, d`cvlEditConfigData, d`cvOpen, d`err
    ensures back.Pass? ==>
              && Ready(d) && d.Base() == old(d.Base())
              && d.txCmds == old(d.txCmds[..d.savePoint.value.txCmdsLen])
    ensures back.Pass? ==>
              && ReadsWithout(d, s, k)
              && (s == d.client.store ==>
                    (Tracks(d.client.store, d.txTsEntryMap, Wires(d.txCmds)) <==> k !in d.client.store))
  {
    d.RewindableIsPlayable();
    PrefixUntouched(d.txCmds, d.savePoint.value.txCmdsLen, k);
    back := d.Rollback2SP();
    if back.Pass? {
      LostRowReads(d.client.store, s, d.txTsEntryMap, d.txTsEntryHGetAll, Wires(d.txCmds), k);
    }
  }

  lemma PrefixUntouched(cs: seq<TxCmd>, n: nat, k: string)
    requires n <= |cs| && !Touched(Wires(cs), k)
    ensures !Touched(Wires(cs[..n]), k)
  {
    assert forall i :: 0 <= i < n ==> Wires(cs[..n])[i] == Wires(cs)[i];
  }

  method CallAfterCommit(d: DB, r: Request) returns (e: Outcome, acted: Request, back: Outcome)
    requires d.Valid() && d.opts.isSession && d.err.Pass? && d.savePoint.None? && GoodRequest(r) && d.txState.TxNone?
    modifies d, d.client`store, d.client`updated
    ensures e.Pass? ==> d.client.store == Meaning(acted, old(d.client.store)) && d.Visible() == d.client.store
    ensures !old(d.cvOpen) ==> back.Pass?
  {
    d.OutsideTx();
    var _ := d.DeclareSP();
    e, acted := d.Perform(r);
    d.OutsideTx();
    d.RewindableIsPlayable();
    back := d.Rollback2SP();
    d.OutsideTx();
  }

  method CallInTransaction(d: DB, r: Request) returns (e: Outcome, acted: Request, back: Outcome)
    requires Ready(d) && GoodRequest(r)
    modifies d, d.client`store, d.client`updated
    ensures d.client.store == old(d.client.store)
    ensures e.Pass? && back.Pass? ==> d.Visible() == old(d.Visible())
  {
    ghost var ws := Wires(d.txCmds);
    var _ := d.DeclareSP();
    assert Open(d);
    e, acted := PerformOne(d, r);
    d.RewindableIsPlayable();
    back := d.Rollback2SP();
    assert Wires(d.txCmds) == ws || back.Fail?;
  }

  /** One call inside a savepoint, and then the rollback. When the session's transaction is over, as
      it is after a commit, the call has reached the store and stays; otherwise nothing is left of it. */
  method RolledBackCall(d: DB, r: Request) returns (e: Outcome, acted: Request, back: Outcome)
    requires d.Valid() && d.opts.isSession && d.err.Pass? && d.savePoint.None? && GoodRequest(r)
    requires d.txState.TxNone? || Ready(d)
    modifies d, d.client`store, d.client`updated
    ensures var over := old(d.txState).TxNone?;
            && (e.Pass? ==> d.client.store == if over then Meaning(acted, old(d.client.store)) else old(d.client.store))
            && (e.Pass? && back.Pass? ==>
                  d.Visible() == if over then Meaning(acted, old(d.Visible())) else old(d.Visible()))
            && (over && !old(d.cvOpen) ==> back.Pass?)
  {
    if d.txState.TxNone? {
      d.OutsideTx();
      e, acted, back := CallAfterCommit(d, r);
    } else {
      e, acted, back := CallInTransaction(d, r);
    }
  }
}
