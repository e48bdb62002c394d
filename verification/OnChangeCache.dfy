/** The on-change cache of a read-only handle (translib/db/db_onchangecache.go) on top of the
    cached reads of getEntry. Cached rows are objects on the heap, so that sharing between the
    cache and the values handed out shows. */
module OnChangeCache {
  import opened Wrappers
  import opened Redis
  import opened Keys
  import opened Overlay

  class Value {
    var Field: Hash

    constructor (fields: Hash)
      ensures Field == fields
    {
      Field := fields;
    }
  }

  datatype Error = OnChangeDisabled | EntryNotExist | RedisFailure

  datatype Outcome = Pass | Fail(error: Error)

  /** What HGETALL answers when it is asked: nothing when the read fails. */
  type Reply = Option<Hash>

  function ReadOutcome(reply: Reply): Outcome {
    if reply.None? then Fail(RedisFailure) else if reply.value == map[] then Fail(EntryNotExist) else Pass
  }

  /** Every row has an object of its own. */
  ghost predicate Unshared(cache: Tables<Value>) {
    forall j, k :: Has(cache, j) && Has(cache, k) && At(cache, j) == At(cache, k) ==> j == k
  }

  lemma UnsharedWith(cache: Tables<Value>, k: string, v: Value)
    requires Unshared(cache) && forall j :: Has(cache, j) ==> At(cache, j) != v
    ensures Unshared(With(cache, k, v))
    ensures forall j :: Has(With(cache, k, v), j) <==> j == k || Has(cache, j)
    ensures forall j :: Has(With(cache, k, v), j) ==> At(With(cache, k, v), j) == if j == k then v else At(cache, j)
  {
    forall i, j | && Has(With(cache, k, v), i) && Has(With(cache, k, v), j)
                  && At(With(cache, k, v), i) == At(With(cache, k, v), j)
      ensures i == j
    {
      assert i == k || Has(cache, i);
      assert j == k || Has(cache, j);
    }
  }

  function Without<V>(m: Tables<V>, k: string): Tables<V>
    requires Head(k) in m
  {
    m[Head(k) := m[Head(k)] - {k}]
  }

  lemma UnsharedWithout(cache: Tables<Value>, k: string)
    requires Unshared(cache) && Head(k) in cache
    ensures Unshared(Without(cache, k))
    ensures forall j :: Has(Without(cache, k), j) <==> j != k && Has(cache, j)
    ensures forall j :: Has(Without(cache, k), j) ==> At(Without(cache, k), j) == At(cache, j)
  {
    forall i, j | && Has(Without(cache, k), i) && Has(Without(cache, k), j)
                  && At(Without(cache, k), i) == At(Without(cache, k), j)
      ensures i == j
    {
      assert Has(cache, i) && Has(cache, j);
    }
  }

  class ReadOnlyDB {
    const isOnChangeEnabled: bool
    const connectionTables: set<string>   // tables of the per-connection cache
    var onChangeTables: set<string>       // tables registered for on-change caching
    var cache: Tables<Value>

    constructor (isOnChangeEnabled: bool, connectionTables: set<string>)
      ensures Valid() && cache == map[] && onChangeTables == {}
      ensures this.isOnChangeEnabled == isOnChangeEnabled && this.connectionTables == connectionTables
    {
      this.isOnChangeEnabled, this.connectionTables := isOnChangeEnabled, connectionTables;
      onChangeTables, cache := {}, map[];
    }

    predicate UseCache(table: string)
      reads this`onChangeTables
    {
      (isOnChangeEnabled && table in onChangeTables) || table in connectionTables
    }

    /** Only tables in use are cached. */
    ghost predicate Valid()
      reads this
    {
      (forall t :: t in cache ==> UseCache(t)) && Unshared(cache)
    }

    /** Is v an object of the cache? */
    ghost predicate Live(v: Value)
      reads this
    {
      exists k :: Has(cache, k) && At(cache, k) == v
    }

    ghost function Cells(): set<Value>
      reads this
    {
      set t, k | t in cache && k in cache[t] :: cache[t][k]
    }

    /** The cached fields of a row. */
    ghost function CachedAt(k: string): Option<Hash>
      reads this, Cells()
    {
      if Has(cache, k) then Some(At(cache, k).Field) else None
    }

    method RegisterTable(ts: TableSpec) returns (e: Outcome)
      requires Valid()
      modifies this`onChangeTables
      ensures Valid()
      ensures e == if isOnChangeEnabled then Pass else Fail(OnChangeDisabled)
      ensures onChangeTables == old(onChangeTables) + if e.Pass? then {ts.name} else {}
    {
      if !isOnChangeEnabled {
        return Fail(OnChangeDisabled);
      }
      onChangeTables := onChangeTables + {ts.name};
      return Pass;
    }

    /** Put a copy of v into the cache. */
    method Fill(k: string, v: Value)
      requires Valid() && UseCache(Head(k))
      modifies this`cache
      ensures Valid() && Has(cache, k) && fresh(At(cache, k)) && At(cache, k).Field == v.Field
      ensures cache == With(old(cache), k, At(cache, k))
    {
      var copy := new Value(v.Field);
      UnsharedWith(cache, k, copy);
      cache := With(cache, k, copy);
    }

    /** getEntry without an overlay. Whatever it returns belongs to the caller alone. */
    method GetEntry(ts: TableSpec, key: Key, forceReadDB: bool, reply: Reply) returns (value: Value?, e: Outcome)
      requires Valid() && GoodKey(ts, key)
      modifies this`cache
      ensures Valid()
      ensures value != null ==> fresh(value) && !Live(value)
      ensures e.Pass? ==> value != null && value.Field != map[]
      ensures e == Fail(EntryNotExist) ==> value != null && value.Field == map[]
      ensures var k := Key2Redis(ts, key);
              var hit := UseCache(ts.name) && !forceReadDB && Has(old(cache), k);
              var answer := if hit then old(CachedAt(k)) else reply;
              && e == ReadOutcome(answer)
              && (e.Pass? ==> Some(value.Field) == answer)
              && (hit || e.Fail? || !UseCache(ts.name) ==> cache == old(cache))
              && (!hit && e.Pass? && UseCache(ts.name) ==>
                    && Has(cache, k) && cache == With(old(cache), k, At(cache, k))
                    && fresh(At(cache, k)) && At(cache, k).Field == value.Field)
    {
      var entry := Key2Redis(ts, key);
      TableOfKey(ts, key);
      var useCache := UseCache(ts.name);
      if useCache && !forceReadDB && Has(cache, entry) {
        value := new Value(At(cache, entry).Field);
        e := if value.Field == map[] then Fail(EntryNotExist) else Pass;
        return;
      }
      if reply.None? {
        return null, Fail(RedisFailure);
      }
      value := new Value(reply.value);
      if value.Field == map[] {
        return value, Fail(EntryNotExist);
      }
      if useCache {
        Fill(entry, value);
      }
      e := Pass;
    }

    /** OnChangeCacheUpdate. The old value is the cache's own object until the cache lets go of
        it, so it stays shared exactly when the read failed on a cached row. */
    method OnChangeCacheUpdate(ts: TableSpec, key: Key, reply: Reply)
      returns (valueOrig: Value?, value: Value?, e: Outcome)
      requires Valid() && GoodKey(ts, key)
      modifies this`cache
      ensures Valid()
      ensures !isOnChangeEnabled ==>
                e == Fail(OnChangeDisabled) && valueOrig == null && value == null && cache == old(cache)
      ensures isOnChangeEnabled ==>
                var k := Key2Redis(ts, key);
                && e == ReadOutcome(reply)
                && valueOrig == (if Has(old(cache), k) then At(old(cache), k) else null)
                && (e.Pass? ==> value != null && value.Field == reply.value)
                && (e.Fail? || !UseCache(ts.name) ==> cache == old(cache))
                && (e.Pass? && UseCache(ts.name) ==>
                      && Has(cache, k) && cache == With(old(cache), k, At(cache, k))
                      && fresh(At(cache, k)) && At(cache, k).Field == value.Field)
      ensures valueOrig != null ==> (Live(valueOrig) <==> e.Fail?)
      ensures value != null ==> fresh(value) && !Live(value)
    {
      valueOrig, value := null, null;
      if !isOnChangeEnabled {
        return null, null, Fail(OnChangeDisabled);
      }
      ghost var k := Key2Redis(ts, key);
      TableOfKey(ts, key);
      if ts.name in cache && Key2Redis(ts, key) in cache[ts.name] {
        valueOrig := cache[ts.name][Key2Redis(ts, key)];
      }
      value, e := GetEntry(ts, key, true, reply);
      if valueOrig != null && e.Pass? {
        UnsharedWith(old(cache), k, At(cache, k));
      }
    }

    /** OnChangeCacheDelete: the row leaves the cache, and its object with it. */
    method OnChangeCacheDelete(ts: TableSpec, key: Key) returns (valueOrig: Value?, e: Outcome)
      requires Valid() && GoodKey(ts, key)
      modifies this`cache
      ensures Valid()
      ensures e == if isOnChangeEnabled then Pass else Fail(OnChangeDisabled)
      ensures e.Fail? ==> valueOrig == null && cache == old(cache)
      ensures e.Pass? ==>
                var k := Key2Redis(ts, key);
                && valueOrig == (if Has(old(cache), k) then At(old(cache), k) else null)
                && (forall j :: Has(cache, j) <==> j != k && Has(old(cache), j))
                && (forall j :: Has(cache, j) ==> At(cache, j) == At(old(cache), j))
      ensures valueOrig != null ==> !Live(valueOrig)
    {
      valueOrig := null;
      if !isOnChangeEnabled {
        return null, Fail(OnChangeDisabled);
      }
      var redisKey := Key2Redis(ts, key);
      TableOfKey(ts, key);
      if ts.name in cache && redisKey in cache[ts.name] {
        valueOrig := cache[ts.name][redisKey];
        assert At(old(cache), redisKey) == valueOrig;
        UnsharedWithout(cache, redisKey);
        cache := Without(cache, redisKey);
      }
      return valueOrig, Pass;
    }
  }

  /** Why the sharing matters: after a failed read, a caller who edits the old value it was given
      edits the cached row. */
  method EditAfterFailedRead(d: ReadOnlyDB, ts: TableSpec, key: Key, fields: Hash) returns (valueOrig: Value?)
    requires d.Valid() && d.isOnChangeEnabled && GoodKey(ts, key)
    modifies d`cache, d.Cells()
    ensures valueOrig != null <==> Has(old(d.cache), Key2Redis(ts, key))
    ensures valueOrig != null ==> d.CachedAt(Key2Redis(ts, key)) == Some(fields)
  {
    var value, e;
    valueOrig, value, e := d.OnChangeCacheUpdate(ts, key, None);
    if valueOrig != null {
      valueOrig.Field := fields;
    }
  }

  // ----- runs -----

  datatype Event =
    | Update(ts: TableSpec, key: Key, reply: Reply)
    | Delete(ts: TableSpec, key: Key)
    | Read(ts: TableSpec, key: Key, reply: Reply)

  /** What one call reported: the previous fields and the current ones. */
  datatype Report = Report(event: Event, before: Option<Hash>, now: Option<Hash>, ok: bool)

  function RowOf(ev: Event): string {
    Key2Redis(ev.ts, ev.key)
  }

  /** The fields of row k that the calls reported last, unless a delete came after them. */
  function LastSeen(start: Option<Hash>, rs: seq<Report>, k: string): Option<Hash>
    decreases |rs|
  {
    if rs == [] then start
    else
      var last := rs[|rs| - 1];
      if RowOf(last.event) == k && last.ok then (if last.event.Delete? then None else last.now)
      else LastSeen(start, rs[..|rs| - 1], k)
  }

  /** The last successful call on row k is the i-th one. */
  predicate Latest(rs: seq<Report>, k: string, i: nat) {
    && i < |rs| && RowOf(rs[i].event) == k && rs[i].ok
    && forall j :: i < j < |rs| ==> !(RowOf(rs[j].event) == k && rs[j].ok)
  }

  lemma {:induction false} LastSeenIsLatest(start: Option<Hash>, rs: seq<Report>, k: string, i: nat)
    requires Latest(rs, k, i)
    ensures LastSeen(start, rs, k) == if rs[i].event.Delete? then None else rs[i].now
    decreases |rs|
  {
    if i < |rs| - 1 {
      var init := rs[..|rs| - 1];
      assert Latest(init, k, i) by {
        assert forall j :: 0 <= j < |init| ==> init[j] == rs[j];
      }
      LastSeenIsLatest(start, init, k, i);
    }
  }

  lemma {:induction false} NothingSeen(start: Option<Hash>, rs: seq<Report>, k: string)
    requires forall i :: 0 <= i < |rs| ==> !(RowOf(rs[i].event) == k && rs[i].ok)
    ensures LastSeen(start, rs, k) == start
    decreases |rs|
  {
    if rs != [] {
      assert forall i :: 0 <= i < |rs| - 1 ==> rs[..|rs| - 1][i] == rs[i];
      NothingSeen(start, rs[..|rs| - 1], k);
    }
  }

  /** One report in line with what was seen of its row before. */
  predicate InLine(r: Report, seen: Option<Hash>) {
    match r.event
    case Update(_, _, reply) =>
      r.before == seen && r.ok == ReadOutcome(reply).Pass? && r.now == if r.ok then reply else None
    case Delete(_, _) => r.ok && r.before == seen && r.now.None?
    case Read(_, _, reply) =>
      var answer := if seen.Some? then seen else reply;
      r.ok == ReadOutcome(answer).Pass? && r.now == if r.ok then answer else None
  }

  function FieldsOf(v: Value?): Option<Hash>
    reads v
  {
    if v == null then None else Some(v.Field)
  }

  /** One event, and what it reported. */
  method Handle(d: ReadOnlyDB, ev: Event) returns (r: Report)
    requires d.Valid() && d.isOnChangeEnabled && GoodKey(ev.ts, ev.key) && d.UseCache(ev.ts.name)
    modifies d`cache
    ensures d.Valid() && r.event == ev
    ensures InLine(r, old(d.CachedAt(RowOf(ev))))
    ensures forall k :: d.CachedAt(k) == LastSeen(old(d.CachedAt(k)), [r], k)
  {
    var orig, value, e;
    TableOfKey(ev.ts, ev.key);
    match ev {
      case Update(ts, key, reply) =>
        orig, value, e := d.OnChangeCacheUpdate(ts, key, reply);
        r := Report(ev, FieldsOf(orig), if e.Pass? then FieldsOf(value) else None, e.Pass?);
      case Delete(ts, key) =>
        orig, e := d.OnChangeCacheDelete(ts, key);
        r := Report(ev, FieldsOf(orig), None, e.Pass?);
      case Read(ts, key, reply) =>
        value, e := d.GetEntry(ts, key, false, reply);
        r := Report(ev, None, if e.Pass? then FieldsOf(value) else None, e.Pass?);
    }
    assert [r][..0] == [];
  }

  lemma LastSeenNext(start: Option<Hash>, rs: seq<Report>, r: Report, k: string)
    ensures LastSeen(start, rs + [r], k) == LastSeen(LastSeen(start, rs, k), [r], k)
  {
    assert (rs + [r])[..|rs|] == rs && [r][..0] == [];
  }

  /** Any run of events on rows of cached tables: the previous value that each call reports is
      the one reported last for that row, so the reports telescope, and a failed read changes
      nothing. */
  method RunEvents(d: ReadOnlyDB, events: seq<Event>) returns (reports: seq<Report>)
    requires d.Valid() && d.isOnChangeEnabled
    requires forall i :: 0 <= i < |events| ==> GoodKey(events[i].ts, events[i].key) && d.UseCache(events[i].ts.name)
    modifies d`cache
    ensures d.Valid() && |reports| == |events|
    ensures forall i :: 0 <= i < |events| ==>
              && reports[i].event == events[i]
              && InLine(reports[i], LastSeen(old(d.CachedAt(RowOf(events[i]))), reports[..i], RowOf(events[i])))
    ensures forall k :: d.CachedAt(k) == LastSeen(old(d.CachedAt(k)), reports, k)
  {
    reports := [];
    for n := 0 to |events|
      invariant d.Valid() && |reports| == n
      invariant forall i :: 0 <= i < n ==>
                  && reports[i].event == events[i]
                  && InLine(reports[i], LastSeen(old(d.CachedAt(RowOf(events[i]))), reports[..i], RowOf(events[i])))
      invariant forall k :: d.CachedAt(k) == LastSeen(old(d.CachedAt(k)), reports, k)
    {
      ghost var before := reports;
      var r := Handle(d, events[n]);
      reports := reports + [r];
      assert reports[..n] == before;
      assert forall i :: 0 <= i < n ==> reports[..i] == before[..i];
      forall k
        ensures d.CachedAt(k) == LastSeen(old(d.CachedAt(k)), reports, k)
      {
        LastSeenNext(old(d.CachedAt(k)), before, r, k);
      }
    }
  }
}
