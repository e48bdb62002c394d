/** Fetching dependent rows in pipelined batches (cvl/cvl_cache.go). A pending row is None in the
    temporary cache, a fetched one is Some. */
module FetchBatch {
  import opened Wrappers

  const MAX_BULK_ENTRIES_IN_PIPELINE: nat := 50

  type Row = map<string, string>
  type Table = map<string, Option<Row>>

  /** What the sources of rows answer: the request cache with its merge flag, and the reply of
      the server once the validated edits are applied to it (absent when empty). */
  datatype Sources = Sources(requests: map<string, (Row, bool)>, replies: map<string, Row>)

  /** The row a pending key ends up with, if any. */
  function Resolve(src: Sources, k: string): Option<Row> {
    if k in src.requests && !src.requests[k].1 then Some(src.requests[k].0)
    else if k !in src.replies then None
    else if k in src.requests then Some(src.replies[k] + src.requests[k].0)
    else Some(src.replies[k])
  }

  predicate Pending(table: Table, k: string) {
    k in table && table[k].None?
  }

  /** The table after a round: fetched rows are gone, pending ones resolved or gone. */
  function Resolved(table: Table, src: Sources): Table {
    map k | k in table && Pending(table, k) && Resolve(src, k).Some? :: Resolve(src, k)
  }

  /** One pipeline: look each key up in the request cache, ask the server for the others, then
      merge the replies. */
  method Flush(table: Table, bulkKeys: seq<string>, src: Sources) returns (table': Table, fetched: nat)
    requires forall k :: k in bulkKeys ==> Pending(table, k)
    requires forall i, j :: 0 <= i < j < |bulkKeys| ==> bulkKeys[i] != bulkKeys[j]
    ensures forall k :: k !in bulkKeys ==> (k in table' <==> k in table) && (k in table ==> table'[k] == table[k])
    ensures forall k :: k in bulkKeys ==> (k in table' <==> Resolve(src, k).Some?)
    ensures forall k :: k in bulkKeys && k in table' ==> table'[k] == Resolve(src, k)
    ensures fetched == 0 <==> forall k :: k in bulkKeys ==> Resolve(src, k).None? && k !in src.requests
  {
    table', fetched := table, 0;
    var mCmd: set<string> := {};
    for i := 0 to |bulkKeys|
      invariant mCmd == set k | k in bulkKeys[..i] && !(k in src.requests && !src.requests[k].1)
      invariant table'.Keys == table.Keys
      invariant forall k :: k in table ==>
                  table'[k] == if k in bulkKeys[..i] && k in src.requests then Some(src.requests[k].0) else table[k]
      invariant fetched == 0 <==> forall k :: k in bulkKeys[..i] ==> k !in src.requests
    {
      var dbKey := bulkKeys[i];
      assert bulkKeys[..i + 1] == bulkKeys[..i] + [dbKey];
      assert dbKey in bulkKeys;
      if dbKey in src.requests {
        fetched := fetched + 1;
        table' := table'[dbKey := Some(src.requests[dbKey].0)];
      }
      if !(dbKey in src.requests && !src.requests[dbKey].1) {
        mCmd := mCmd + {dbKey};
      }
    }
    assert bulkKeys[..|bulkKeys|] == bulkKeys;
    table', fetched := MergeReplies(table', mCmd, src, fetched);
  }

  method MergeReplies(table: Table, mCmd: set<string>, src: Sources, hits: nat) returns (table': Table, fetched: nat)
    requires forall k :: k in mCmd ==>
               k in table && table[k] == if k in src.requests then Some(src.requests[k].0) else None
    ensures forall k :: k !in mCmd ==> (k in table' <==> k in table) && (k in table ==> table'[k] == table[k])
    ensures forall k :: k in mCmd ==> (k in table' <==> k in src.replies)
    ensures forall k :: k in mCmd && k in table' ==>
              table'[k] == Some(if k in src.requests then src.replies[k] + src.requests[k].0 else src.replies[k])
    ensures fetched == 0 <==> hits == 0 && forall k :: k in mCmd ==> k !in src.replies
  {
    table', fetched := table, hits;
    var rest := mCmd;
    while rest != {}
      invariant rest <= mCmd
      invariant forall k :: k !in mCmd || k in rest ==>
                  (k in table' <==> k in table) && (k in table ==> table'[k] == table[k])
      invariant forall k :: k in mCmd - rest ==> (k in table' <==> k in src.replies)
      invariant forall k :: k in mCmd - rest && k in table' ==>
                  table'[k] == Some(if k in src.requests then src.replies[k] + src.requests[k].0 else src.replies[k])
      invariant fetched == 0 <==> hits == 0 && forall k :: k in mCmd - rest ==> k !in src.replies
      decreases rest
    {
      var key :| key in rest;
      if key !in src.replies {
        table' := table' - {key};
      } else {
        var tmp := if table'[key].Some? then table'[key].value else map[];
        assert src.replies[key] + map[] == src.replies[key];
        table' := table'[key := Some(src.replies[key] + tmp)];
        fetched := fetched + 1;
      }
      rest := rest - {key};
    }
  }

  function Flatten(batches: seq<seq<string>>): seq<string> {
    if batches == [] then [] else Flatten(batches[..|batches| - 1]) + batches[|batches| - 1]
  }

  predicate Distinct(s: seq<string>) {
    forall i, j :: 0 <= i < j < |s| ==> s[i] != s[j]
  }

  /** Where each key stands during the loop: rest is still to come, bulk waits for the next
      pipeline, flushed has been through one. */
  ghost predicate Progress(table: Table, now: Table, src: Sources, flushed: seq<string>, bulk: seq<string>,
                           rest: set<string>) {
    && rest <= table.Keys && Distinct(flushed + bulk)
    && (forall k :: k in now ==> k in table)
    && (forall k :: k in flushed || k in bulk <==> k !in rest && Pending(table, k))
    && (forall k :: k in rest || k in bulk ==> k in now && k in table && now[k] == table[k])
    && (forall k :: k in flushed ==> (k in now <==> Resolve(src, k).Some?) && (k in now ==> now[k] == Resolve(src, k)))
    && (forall k :: k in table && table[k].Some? && k !in rest ==> k !in now)
  }

  lemma Taken(table: Table, now: Table, src: Sources, flushed: seq<string>,
              bulk: seq<string>, rest: set<string>, k: string)
    requires Progress(table, now, src, flushed, bulk, rest) && k in rest
    ensures now[k].Some? ==> Progress(table, now - {k}, src, flushed, bulk, rest - {k})
    ensures now[k].None? ==> Progress(table, now, src, flushed, bulk + [k], rest - {k})
  {
    assert flushed + (bulk + [k]) == (flushed + bulk) + [k];
    assert forall j :: j in bulk + [k] <==> j in bulk || j == k;
    if now[k].None? {
      assert k !in flushed + bulk;
    }
  }

  method FlushStep(table: Table, now: Table, src: Sources, ghost flushed: seq<string>, bulk: seq<string>,
                   ghost rest: set<string>)
    returns (now': Table, fetched: nat)
    requires Progress(table, now, src, flushed, bulk, rest)
    ensures Progress(table, now', src, flushed + bulk, [], rest)
    ensures fetched == 0 ==> forall k :: k in bulk ==> Resolve(src, k).None?
    ensures bulk == [] ==> fetched == 0
  {
    DistinctParts(flushed, bulk);
    now', fetched := Flush(now, bulk, src);
    assert flushed + bulk + [] == flushed + bulk;
  }

  lemma DistinctParts(a: seq<string>, b: seq<string>)
    requires Distinct(a + b)
    ensures Distinct(b) && forall k :: k in b ==> k !in a
  {
    forall i, j | 0 <= i < j < |b|
      ensures b[i] != b[j]
    {
      assert (a + b)[|a| + i] != (a + b)[|a| + j];
    }
    forall k | k in b
      ensures k !in a
    {
      var j :| 0 <= j < |b| && b[j] == k;
      forall i | 0 <= i < |a|
        ensures a[i] != k
      {
        assert (a + b)[i] != (a + b)[|a| + j];
      }
    }
  }

  lemma FlattenLast(batches: seq<seq<string>>, b: seq<string>)
    ensures Flatten(batches + [b]) == Flatten(batches) + b
  {
    assert (batches + [b])[..|batches|] == batches;
  }

  /** Skipped and collected entries add up to the entries seen, so the two counters of the code
      meet at the last entry and not before. */
  predicate Counted(size: nat, left: nat, bulkCount: nat, totalCount: int, skipped: nat, waiting: nat) {
    && left <= size && bulkCount + skipped == size - left && totalCount == size - skipped
    && waiting == if left == 0 then 0 else bulkCount % MAX_BULK_ENTRIES_IN_PIPELINE
  }

  /** The loop body for one entry, whose turn has just come. */
  method VisitOne(table: Table, now: Table, src: Sources, ghost flushed: seq<string>, bulk: seq<string>,
                  ghost rest: set<string>, dbKey: string, bulkCount: nat, totalCount: int, ghost skipped: nat)
    returns (now': Table, bulk': seq<string>, bulkCount': nat, totalCount': int, fetched: nat, flush: bool)
    requires Progress(table, now, src, flushed, bulk, rest) && dbKey in rest
    requires Counted(|table|, |rest|, bulkCount, totalCount, skipped, |bulk|)
    ensures Progress(table, now', src, if flush then flushed + bulk' else flushed, if flush then [] else bulk',
                     rest - {dbKey})
    ensures Counted(|table|, |rest - {dbKey}|, bulkCount', totalCount',
                    if now[dbKey].Some? then skipped + 1 else skipped,
                    if flush then 0 else |bulk'|)
    ensures |bulk'| <= MAX_BULK_ENTRIES_IN_PIPELINE
    ensures if flush then fetched == 0 ==> forall k :: k in bulk' ==> Resolve(src, k).None? else fetched == 0
    ensures bulk' == [] ==> fetched == 0
  {
    Taken(table, now, src, flushed, bulk, rest, dbKey);
    now', bulk', bulkCount', totalCount', fetched, flush := now, bulk, bulkCount, totalCount, 0, false;
    if now[dbKey].Some? {
      now' := now - {dbKey};
      totalCount' := totalCount - 1;
      if bulkCount' != totalCount' {
        return;
      }
    } else {
      bulk' := bulk + [dbKey];
      bulkCount' := bulkCount + 1;
    }
    if bulkCount' != totalCount' && bulkCount' % MAX_BULK_ENTRIES_IN_PIPELINE != 0 {
      return;
    }
    flush := true;
    now', fetched := FlushStep(table, now', src, flushed, bulk', rest - {dbKey});
  }

  /** The batches sent so far hold the flushed keys, and the total is zero only if they fetched
      nothing. */
  ghost predicate Batched(batches: seq<seq<string>>, flushed: seq<string>, fetched: nat, src: Sources) {
    && flushed == Flatten(batches)
    && (forall i :: 0 <= i < |batches| ==> |batches[i]| <= MAX_BULK_ENTRIES_IN_PIPELINE)
    && (fetched == 0 ==> forall k :: k in flushed ==> Resolve(src, k).None?)
    && (fetched > 0 ==> flushed != [])
  }

  lemma BatchedNext(batches: seq<seq<string>>, flushed: seq<string>, fetched: nat, src: Sources,
                    bulk: seq<string>, n: nat)
    requires Batched(batches, flushed, fetched, src) && |bulk| <= MAX_BULK_ENTRIES_IN_PIPELINE
    requires n == 0 ==> forall k :: k in bulk ==> Resolve(src, k).None?
    requires bulk == [] ==> n == 0
    ensures Batched(batches + [bulk], flushed + bulk, fetched + n, src)
  {
    FlattenLast(batches, bulk);
  }

  lemma AllVisited(table: Table, now: Table, src: Sources, flushed: seq<string>, fetched: nat,
                   batches: seq<seq<string>>)
    requires Progress(table, now, src, flushed, [], {}) && Batched(batches, flushed, fetched, src)
    ensures now == Resolved(table, src) && Distinct(flushed)
    ensures forall k :: k in flushed <==> Pending(table, k)
    ensures fetched == 0 ==> now == map[]
    ensures fetched > 0 ==> exists k :: Pending(table, k)
  {
    assert flushed + [] == flushed;
    if fetched > 0 {
      assert Pending(table, flushed[0]);
    }
  }

  /** fetchTableDataToTmpCache, while the pipelines succeed. The iteration order is arbitrary.
      Every pending key goes into exactly one batch, and no batch has more than 50 keys. */
  method FetchTable(table: Table, src: Sources) returns (table': Table, fetched: nat, ghost batches: seq<seq<string>>)
    ensures table' == Resolved(table, src)
    ensures forall i :: 0 <= i < |batches| ==> |batches[i]| <= MAX_BULK_ENTRIES_IN_PIPELINE
    ensures Distinct(Flatten(batches))
    ensures forall k :: k in Flatten(batches) <==> Pending(table, k)
    ensures fetched == 0 ==> table' == map[]
    ensures fetched > 0 ==> exists k :: Pending(table, k)
  {
    table', fetched, batches := table, 0, [];
    var totalCount: int := |table|;
    if totalCount == 0 {
      assert table.Keys == {};
      return;
    }
    var bulkCount: nat, bulk: seq<string> := 0, [];
    ghost var flushed: seq<string>, skipped: nat := [], 0;
    var rest := table.Keys;
    while rest != {}
      invariant Progress(table, table', src, flushed, bulk, rest)
      invariant Counted(|table|, |rest|, bulkCount, totalCount, skipped, |bulk|)
      invariant Batched(batches, flushed, fetched, src)
      decreases rest
    {
      var dbKey :| dbKey in rest;
      var n, flush;
      ghost var skip := table'[dbKey].Some?;
      table', bulk, bulkCount, totalCount, n, flush :=
        VisitOne(table, table', src, flushed, bulk, rest, dbKey, bulkCount, totalCount, skipped);
      rest, skipped := rest - {dbKey}, if skip then skipped + 1 else skipped;
      if flush {
        BatchedNext(batches, flushed, fetched, src, bulk, n);
        fetched, batches, flushed, bulk := fetched + n, batches + [bulk], flushed + bulk, [];
      }
    }
    AllVisited(table, table', src, flushed, fetched, batches);
  }

  type Cache = map<string, Table>

  /** All tables resolved; tables left empty are dropped. */
  function ResolvedAll(cache: Cache, src: map<string, Sources>): Cache
    requires forall t :: t in cache ==> t in src
  {
    map t | t in cache && Resolved(cache[t], src[t]) != map[] :: Resolved(cache[t], src[t])
  }

  predicate TableFetched(table: Table) {
    forall k :: k in table ==> !Pending(table, k)
  }

  predicate AllFetched(cache: Cache) {
    forall t :: t in cache ==> TableFetched(cache[t])
  }

  /** After one round nothing is pending, and after a second one nothing is left. */
  lemma TwoRoundsEmpty(cache: Cache, src: map<string, Sources>)
    requires forall t :: t in cache ==> t in src
    ensures AllFetched(ResolvedAll(cache, src))
    ensures AllFetched(cache) ==> ResolvedAll(cache, src) == map[]
  {
    if AllFetched(cache) {
      forall t | t in cache
        ensures Resolved(cache[t], src[t]) == map[]
      {
        assert TableFetched(cache[t]);
      }
    }
  }

  /** The tables in rest are untouched, the others resolved. */
  ghost predicate Halfway(cache: Cache, cache': Cache, src: map<string, Sources>, rest: set<string>)
    requires forall t :: t in cache ==> t in src
  {
    && rest <= cache.Keys && cache'.Keys == cache.Keys
    && forall t :: t in cache ==> cache'[t] == if t in rest then cache[t] else Resolved(cache[t], src[t])
  }

  /** One pass over all tables, then the empty ones are dropped. */
  method FetchRound(cache: Cache, src: map<string, Sources>) returns (cache': Cache, fetched: nat)
    requires forall t :: t in cache ==> t in src
    ensures cache' == ResolvedAll(cache, src)
    ensures fetched == 0 ==> cache' == map[]
    ensures AllFetched(cache) ==> fetched == 0
  {
    cache', fetched := cache, 0;
    var rest := cache.Keys;
    while rest != {}
      invariant Halfway(cache, cache', src, rest)
      invariant fetched == 0 ==> forall t :: t in cache && t !in rest ==> cache'[t] == map[]
      invariant AllFetched(cache) ==> fetched == 0
      decreases rest
    {
      var t :| t in rest;
      var table, n := FetchOne(cache'[t], src[t]);
      cache', fetched, rest := cache'[t := table], fetched + n, rest - {t};
    }
    cache' := DropEmpty(cache');
  }

  function DropEmpty(cache: Cache): Cache {
    map t | t in cache && cache[t] != map[] :: cache[t]
  }

  method FetchOne(table: Table, src: Sources) returns (table': Table, fetched: nat)
    ensures table' == Resolved(table, src)
    ensures fetched == 0 ==> table' == map[]
    ensures fetched > 0 ==> !TableFetched(table)
  {
    ghost var batches;
    table', fetched, batches := FetchTable(table, src);
  }

  /** fetchDataToTmpCache: rounds until nothing more is fetched. It ends within two rounds, with
      an empty cache. */
  method FetchAll(cache: Cache, src: map<string, Sources>) returns (cache': Cache, rounds: nat)
    requires forall t :: t in cache ==> t in src
    ensures cache' == map[]
    ensures rounds <= 2
  {
    cache', rounds := cache, 0;
    var entryToFetch := 1;
    while entryToFetch > 0
      invariant rounds <= 1 && entryToFetch > 0 && forall t :: t in cache' ==> t in src
      invariant rounds == 1 ==> AllFetched(cache')
      decreases 2 - rounds
    {
      TwoRoundsEmpty(cache', src);
      cache', entryToFetch := FetchRound(cache', src);
      rounds := rounds + 1;
      if entryToFetch == 0 {
        break;
      }
    }
  }
}
