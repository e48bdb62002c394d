/** getEntries on a read-only handle: cache hits first, the misses in one pipeline that also fills
    the cache, compared with getEntry called key by key. */
module CachedBatch {
  import opened Wrappers
  import opened Redis
  import opened Keys
  import opened Overlay
  import opened OnChangeCache

  predicate FromCache(cached: Option<Hash>, useCache: bool, force: bool) {
    useCache && !force && cached.Some?
  }

  /** What getEntry answers for a row with these fields in the cache and in the store. */
  function Answer(cached: Option<Hash>, useCache: bool, force: bool, stored: Hash): (Hash, Outcome) {
    if FromCache(cached, useCache, force) then (cached.value, ReadOutcome(cached))
    else (stored, ReadOutcome(Some(stored)))
  }

  /** What it leaves in the cache. */
  function After(cached: Option<Hash>, useCache: bool, force: bool, stored: Hash): Option<Hash> {
    if useCache && !FromCache(cached, useCache, force) && stored != map[] then Some(stored) else cached
  }

  /** getEntries takes a cached row as it is. */
  function BatchAnswer(cached: Option<Hash>, useCache: bool, force: bool, stored: Hash): (Hash, Outcome) {
    if FromCache(cached, useCache, force) then (cached.value, Pass) else (stored, ReadOutcome(Some(stored)))
  }

  /** The two differ on cached rows without fields only, which the cache never takes in by itself;
      a caller can empty one through the old value of a failed on-change update. */
  lemma BatchDiffersOnEmptyRows(cached: Option<Hash>, useCache: bool, force: bool, stored: Hash)
    ensures BatchAnswer(cached, useCache, force, stored) == Answer(cached, useCache, force, stored) <==>
            !(FromCache(cached, useCache, force) && cached.value == map[])
  {
  }

  /** Asking again gives the same answer, now perhaps from the cache, and changes nothing more. */
  lemma AskingTwice(cached: Option<Hash>, useCache: bool, force: bool, stored: Hash)
    ensures var then_ := After(cached, useCache, force, stored);
            && Answer(then_, useCache, force, stored) == Answer(cached, useCache, force, stored)
            && After(then_, useCache, force, stored) == then_
  {
  }

  predicate Asked(ts: TableSpec, keys: seq<Key>, k: string) {
    exists i :: 0 <= i < |keys| && Key2Redis(ts, keys[i]) == k
  }

  lemma AskedNext(ts: TableSpec, keys: seq<Key>, n: nat, k: string)
    requires n < |keys|
    ensures Asked(ts, keys[..n + 1], k) <==> Asked(ts, keys[..n], k) || Key2Redis(ts, keys[n]) == k
  {
    if Asked(ts, keys[..n], k) {
      var i :| 0 <= i < n && Key2Redis(ts, keys[..n][i]) == k;
      assert Key2Redis(ts, keys[..n + 1][i]) == k;
    }
    if Key2Redis(ts, keys[n]) == k {
      assert Key2Redis(ts, keys[..n + 1][n]) == k;
    }
    if Asked(ts, keys[..n + 1], k) {
      var i :| 0 <= i < n + 1 && Key2Redis(ts, keys[..n + 1][i]) == k;
      assert i < n ==> Key2Redis(ts, keys[..n][i]) == k;
    }
  }

  predicate AllGood(ts: TableSpec, keys: seq<Key>) {
    forall i :: 0 <= i < |keys| ==> GoodKey(ts, keys[i])
  }

  /** getEntry for each key in turn, with the server's rows in s. */
  method OneByOne(d: ReadOnlyDB, ts: TableSpec, keys: seq<Key>, force: bool, s: Store)
    returns (values: seq<Hash>, errors: seq<Outcome>)
    requires d.Valid() && AllGood(ts, keys)
    modifies d`cache
    ensures d.Valid() && |values| == |errors| == |keys|
    ensures forall i :: 0 <= i < |keys| ==>
              var k := Key2Redis(ts, keys[i]);
              (values[i], errors[i]) == Answer(old(d.CachedAt(k)), d.UseCache(ts.name), force, HashAt(s, k))
    ensures forall k :: d.CachedAt(k) ==
              if Asked(ts, keys, k) then After(old(d.CachedAt(k)), d.UseCache(ts.name), force, HashAt(s, k))
              else old(d.CachedAt(k))
  {
    values, errors := [], [];
    ghost var use := d.UseCache(ts.name);
    for n := 0 to |keys|
      invariant d.Valid() && |values| == |errors| == n
      invariant forall i :: 0 <= i < n ==>
                  var k := Key2Redis(ts, keys[i]);
                  (values[i], errors[i]) == Answer(old(d.CachedAt(k)), use, force, HashAt(s, k))
      invariant forall k :: d.CachedAt(k) ==
                  if Asked(ts, keys[..n], k) then After(old(d.CachedAt(k)), use, force, HashAt(s, k))
                  else old(d.CachedAt(k))
    {
      var h, e := AskOne(d, ts, keys[n], force, s);
      forall k
        ensures Asked(ts, keys[..n + 1], k) <==> Asked(ts, keys[..n], k) || Key2Redis(ts, keys[n]) == k
        ensures After(After(old(d.CachedAt(k)), use, force, HashAt(s, k)), use, force, HashAt(s, k)) ==
                After(old(d.CachedAt(k)), use, force, HashAt(s, k))
      {
        AskedNext(ts, keys, n, k);
        AskingTwice(old(d.CachedAt(k)), use, force, HashAt(s, k));
      }
      AskingTwice(old(d.CachedAt(Key2Redis(ts, keys[n]))), use, force, HashAt(s, Key2Redis(ts, keys[n])));
      values, errors := values + [h], errors + [e];
    }
    assert keys[..|keys|] == keys;
  }

  method AskOne(d: ReadOnlyDB, ts: TableSpec, key: Key, force: bool, s: Store) returns (h: Hash, e: Outcome)
    requires d.Valid() && GoodKey(ts, key)
    modifies d`cache
    ensures d.Valid()
    ensures var k := Key2Redis(ts, key);
            && (h, e) == Answer(old(d.CachedAt(k)), d.UseCache(ts.name), force, HashAt(s, k))
            && d.CachedAt(k) == After(old(d.CachedAt(k)), d.UseCache(ts.name), force, HashAt(s, k))
            && forall j :: j != k ==> d.CachedAt(j) == old(d.CachedAt(j))
  {
    var value;
    value, e := d.GetEntry(ts, key, force, Some(HashAt(s, Key2Redis(ts, key))));
    h := if value == null then map[] else value.Field;
  }

  /** No cached row is without fields. */
  ghost predicate Filled(d: ReadOnlyDB)
    reads d, d.Cells()
  {
    forall k :: d.CachedAt(k) != Some(map[])
  }

  /** Is the row one that the pipeline has to fetch? */
  ghost predicate Missed(d: ReadOnlyDB, ts: TableSpec, key: Key, force: bool)
    reads d, d.Cells()
  {
    !FromCache(d.CachedAt(Key2Redis(ts, key)), d.UseCache(ts.name), force)
  }

  /** The first half: what the cache answers, and where the misses are. */
  method CollectHits(d: ReadOnlyDB, ts: TableSpec, keys: seq<Key>, force: bool)
    returns (fields: seq<Hash>, keyIdxs: seq<nat>, missed: seq<Key>)
    requires d.Valid() && AllGood(ts, keys)
    ensures |fields| == |keys| && |missed| == |keyIdxs|
    ensures Increasing(keyIdxs)
    ensures forall i :: 0 <= i < |keyIdxs| ==>
              keyIdxs[i] < |keys| && missed[i] == keys[keyIdxs[i]] && Missed(d, ts, missed[i], force)
    ensures forall j :: 0 <= j < |keys| ==>
              if Missed(d, ts, keys[j], force) then j in keyIdxs
              else d.CachedAt(Key2Redis(ts, keys[j])) == Some(fields[j])
  {
    fields, keyIdxs, missed := [], [], [];
    for idx := 0 to |keys|
      invariant |fields| == idx && |missed| == |keyIdxs|
      invariant Increasing(keyIdxs)
      invariant forall i :: 0 <= i < |keyIdxs| ==>
                  keyIdxs[i] < idx && missed[i] == keys[keyIdxs[i]] && Missed(d, ts, missed[i], force)
      invariant forall j :: 0 <= j < idx ==>
                  if Missed(d, ts, keys[j], force) then j in keyIdxs
                  else d.CachedAt(Key2Redis(ts, keys[j])) == Some(fields[j])
    {
      var entry := Key2Redis(ts, keys[idx]);
      if d.UseCache(ts.name) && !force && Has(d.cache, entry) {
        fields := fields + [At(d.cache, entry).Field];
      } else {
        ghost var before := keyIdxs;
        fields, keyIdxs, missed := fields + [map[]], keyIdxs + [idx], missed + [keys[idx]];
        assert keyIdxs[|before|] == idx;
        assert forall j :: j in before ==> j in keyIdxs;
      }
    }
  }

  lemma MissedAreAsked(d: ReadOnlyDB, ts: TableSpec, keys: seq<Key>, force: bool, keyIdxs: seq<nat>, missed: seq<Key>,
                       k: string)
    requires |missed| == |keyIdxs|
    requires forall i :: 0 <= i < |keyIdxs| ==>
               keyIdxs[i] < |keys| && missed[i] == keys[keyIdxs[i]] && Missed(d, ts, missed[i], force)
    requires forall j :: 0 <= j < |keys| && Missed(d, ts, keys[j], force) ==> j in keyIdxs
    ensures Asked(ts, missed, k) <==> Asked(ts, keys, k) && !FromCache(d.CachedAt(k), d.UseCache(ts.name), force)
  {
    if Asked(ts, missed, k) {
      var i :| 0 <= i < |missed| && Key2Redis(ts, missed[i]) == k;
      assert Key2Redis(ts, keys[keyIdxs[i]]) == k;
    }
    if Asked(ts, keys, k) && !FromCache(d.CachedAt(k), d.UseCache(ts.name), force) {
      var j :| 0 <= j < |keys| && Key2Redis(ts, keys[j]) == k;
      assert Missed(d, ts, keys[j], force);
      var i :| 0 <= i < |keyIdxs| && keyIdxs[i] == j;
      assert Key2Redis(ts, missed[i]) == k;
    }
  }

  predicate Fetched(stored: Hash, h: Hash, e: Outcome) {
    h == stored && e == ReadOutcome(Some(stored))
  }

  /** A fetched row goes into the cache, if it has fields. */
  method Keep(d: ReadOnlyDB, ts: TableSpec, key: Key, h: Hash)
    requires d.Valid() && GoodKey(ts, key)
    modifies d`cache
    ensures d.Valid()
    ensures d.CachedAt(Key2Redis(ts, key)) ==
            if d.UseCache(ts.name) && h != map[] then Some(h) else old(d.CachedAt(Key2Redis(ts, key)))
    ensures forall j :: j != Key2Redis(ts, key) ==> d.CachedAt(j) == old(d.CachedAt(j))
  {
    TableOfKey(ts, key);
    if d.UseCache(ts.name) && h != map[] {
      var v := new Value(h);
      d.Fill(Key2Redis(ts, key), v);
    }
  }

  predicate Increasing(s: seq<nat>) {
    forall i, j :: 0 <= i < j < |s| ==> s[i] < s[j]
  }

  /** The first n replies stand at their indices, and the hits where they were. */
  predicate Placed(fields: seq<Hash>, fields': seq<Hash>, errors: seq<Outcome>,
                   keyIdxs: seq<nat>, rows: seq<Hash>, n: nat) {
    && |fields'| == |errors| == |fields| && |rows| == |keyIdxs| && n <= |keyIdxs|
    && (forall i :: 0 <= i < |keyIdxs| ==> keyIdxs[i] < |fields|)
    && (forall i :: 0 <= i < n ==> Fetched(rows[i], fields'[keyIdxs[i]], errors[keyIdxs[i]]))
    && forall j :: 0 <= j < |fields| && j !in keyIdxs ==> fields'[j] == fields[j] && errors[j] == Pass
  }

  lemma PlaceNext(fields: seq<Hash>, fields': seq<Hash>, errors: seq<Outcome>,
                  keyIdxs: seq<nat>, rows: seq<Hash>, n: nat)
    requires Placed(fields, fields', errors, keyIdxs, rows, n) && n < |keyIdxs| && Increasing(keyIdxs)
    ensures Placed(fields, fields'[keyIdxs[n] := rows[n]], errors[keyIdxs[n] := ReadOutcome(Some(rows[n]))],
                   keyIdxs, rows, n + 1)
  {
    assert keyIdxs[n] in keyIdxs;
  }

  method PutReply(h: Hash, fields: seq<Hash>, errors: seq<Outcome>, keyIdxs: seq<nat>, n: nat,
                  ghost before: seq<Hash>, ghost rows: seq<Hash>)
    returns (fields': seq<Hash>, errors': seq<Outcome>)
    requires Placed(before, fields, errors, keyIdxs, rows, n) && n < |keyIdxs| && Increasing(keyIdxs) && h == rows[n]
    ensures Placed(before, fields', errors', keyIdxs, rows, n + 1)
  {
    PlaceNext(before, fields, errors, keyIdxs, rows, n);
    fields' := fields[keyIdxs[n] := h];
    errors' := errors[keyIdxs[n] := ReadOutcome(Some(h))];
  }

  function RowsOf(ts: TableSpec, keys: seq<Key>, s: Store): (rows: seq<Hash>)
    ensures |rows| == |keys| && forall i :: 0 <= i < |keys| ==> rows[i] == HashAt(s, Key2Redis(ts, keys[i]))
  {
    seq(|keys|, i requires 0 <= i < |keys| => HashAt(s, Key2Redis(ts, keys[i])))
  }

  lemma AskedMore(ts: TableSpec, keys: seq<Key>, n: nat)
    requires n < |keys|
    ensures forall k :: Asked(ts, keys[..n + 1], k) <==> Asked(ts, keys[..n], k) || Key2Redis(ts, keys[n]) == k
  {
    forall k
      ensures Asked(ts, keys[..n + 1], k) <==> Asked(ts, keys[..n], k) || Key2Redis(ts, keys[n]) == k
    {
      AskedNext(ts, keys, n, k);
    }
  }

  /** The cache holds the fetched rows that the keys asked for so far name, and what it held before. */
  ghost predicate CacheFilled(d: ReadOnlyDB, was: imap<string, Option<Hash>>, ts: TableSpec, asked: seq<Key>, s: Store)
    requires forall k: string :: k in was
    reads d, d.Cells()
  {
    forall k :: d.CachedAt(k) ==
                if Asked(ts, asked, k) && d.UseCache(ts.name) && HashAt(s, k) != map[] then Some(HashAt(s, k))
                else was[k]
  }

  /** One reply of the pipeline goes to its index and into the cache. */
  method FillNext(d: ReadOnlyDB, ts: TableSpec, keyIdxs: seq<nat>, missed: seq<Key>, n: nat, s: Store,
                  fields: seq<Hash>, errors: seq<Outcome>,
                  ghost was: imap<string, Option<Hash>>, ghost before: seq<Hash>, ghost rows: seq<Hash>)
    returns (fields': seq<Hash>, errors': seq<Outcome>)
    requires d.Valid() && AllGood(ts, missed) && n < |missed| == |keyIdxs| && Increasing(keyIdxs)
    requires rows == RowsOf(ts, missed, s) && Placed(before, fields, errors, keyIdxs, rows, n)
    requires (forall k: string :: k in was) && CacheFilled(d, was, ts, missed[..n], s)
    modifies d`cache
    ensures d.Valid() && CacheFilled(d, was, ts, missed[..n + 1], s)
    ensures Placed(before, fields', errors', keyIdxs, rows, n + 1)
  {
    AskedMore(ts, missed, n);
    var h := HashAt(s, Key2Redis(ts, missed[n]));
    Keep(d, ts, missed[n], h);
    fields', errors' := PutReply(h, fields, errors, keyIdxs, n, before, rows);
  }

  /** The second half: the replies go to their indices and into the cache. */
  method FillMisses(d: ReadOnlyDB, ts: TableSpec, keyIdxs: seq<nat>, missed: seq<Key>, fields: seq<Hash>, s: Store)
    returns (fields': seq<Hash>, errors: seq<Outcome>)
    requires d.Valid() && AllGood(ts, missed) && |missed| == |keyIdxs| && Increasing(keyIdxs)
    requires forall i :: 0 <= i < |keyIdxs| ==> keyIdxs[i] < |fields|
    modifies d`cache
    ensures d.Valid() && Placed(fields, fields', errors, keyIdxs, RowsOf(ts, missed, s), |keyIdxs|)
    ensures forall k :: d.CachedAt(k) ==
              if Asked(ts, missed, k) && d.UseCache(ts.name) && HashAt(s, k) != map[] then Some(HashAt(s, k))
              else old(d.CachedAt(k))
  {
    fields', errors := fields, seq(|fields|, _ => Pass);
    ghost var rows := RowsOf(ts, missed, s);
    ghost var was := imap k: string | true :: d.CachedAt(k);
    for n := 0 to |keyIdxs|
      invariant d.Valid() && Placed(fields, fields', errors, keyIdxs, rows, n)
      invariant CacheFilled(d, was, ts, missed[..n], s)
    {
      fields', errors := FillNext(d, ts, keyIdxs, missed, n, s, fields', errors, was, fields, rows);
    }
    assert missed[..|missed|] == missed;
  }

  /** What is handed out is copied. */
  method Copies(d: ReadOnlyDB, fields: seq<Hash>) returns (values: seq<Value>)
    ensures |values| == |fields|
    ensures forall i :: 0 <= i < |fields| ==> fresh(values[i]) && !d.Live(values[i]) && values[i].Field == fields[i]
  {
    values := [];
    for i := 0 to |fields|
      invariant |values| == i
      invariant forall j :: 0 <= j < i ==> fresh(values[j]) && !d.Live(values[j]) && values[j].Field == fields[j]
    {
      var v := new Value(fields[i]);
      values := values + [v];
    }
  }

  /** getEntries, while the pipeline succeeds: every index gets the answer of getEntry called key by
      key, repeats included, and the cache ends the same. */
  method GetEntries(d: ReadOnlyDB, ts: TableSpec, keys: seq<Key>, force: bool, s: Store)
    returns (values: seq<Value>, errors: seq<Outcome>)
    requires d.Valid() && AllGood(ts, keys)
    modifies d`cache
    ensures d.Valid() && |values| == |errors| == |keys|
    ensures forall i :: 0 <= i < |keys| ==> fresh(values[i]) && !d.Live(values[i])
    ensures forall i :: 0 <= i < |keys| ==>
              var k := Key2Redis(ts, keys[i]);
              (values[i].Field, errors[i]) == BatchAnswer(old(d.CachedAt(k)), d.UseCache(ts.name), force, HashAt(s, k))
    ensures old(Filled(d)) ==> forall i :: 0 <= i < |keys| ==>
              var k := Key2Redis(ts, keys[i]);
              (values[i].Field, errors[i]) == Answer(old(d.CachedAt(k)), d.UseCache(ts.name), force, HashAt(s, k))
    ensures forall k :: d.CachedAt(k) ==
              if Asked(ts, keys, k) then After(old(d.CachedAt(k)), d.UseCache(ts.name), force, HashAt(s, k))
              else old(d.CachedAt(k))
  {
    var fields, keyIdxs, missed := CollectHits(d, ts, keys, force);
    forall k
      ensures Asked(ts, missed, k) <==>
              Asked(ts, keys, k) && !FromCache(d.CachedAt(k), d.UseCache(ts.name), force)
    {
      MissedAreAsked(d, ts, keys, force, keyIdxs, missed, k);
    }
    fields, errors := FillMisses(d, ts, keyIdxs, missed, fields, s);
    values := Copies(d, fields);
  }
}
