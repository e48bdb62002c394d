/** Reads that combine the overlay with pipelined Redis replies: getEntries, and the view the
    validator gets through translib/db/cvl_db_access.go. */
module CvlAccess {
  import opened Wrappers
  import opened Redis
  import opened Keys
  import opened Glob
  import opened Overlay
  import opened ConfigDB

  // ----- getEntries -----

  /** An error slice that is nil as long as no key failed. */
  function ErrorAt(errors: seq<Outcome>, i: nat): Outcome {
    if i < |errors| then errors[i] else Pass
  }

  function SetError(errors: seq<Outcome>, i: nat, n: nat, e: Outcome): (r: seq<Outcome>)
    requires i < n && (errors == [] || |errors| == n)
    ensures |r| == n
    ensures forall j :: 0 <= j < n ==> ErrorAt(r, j) == if j == i then e else ErrorAt(errors, j)
  {
    (if errors == [] then seq(n, _ => Pass) else errors)[i := e]
  }

  /** getMultiEntry: one pipelined HGETALL for each key; the pipeline fails as a whole. */
  method GetMultiEntry(client: Client, keys: seq<string>) returns (hs: seq<Hash>, ok: bool)
    ensures client.reliable ==> ok
    ensures ok ==> |hs| == |keys| && forall i :: 0 <= i < |keys| ==> hs[i] == HashAt(client.store, keys[i])
  {
    hs, ok := [], true;
    var i := 0;
    while i < |keys| && ok
      invariant i <= |keys| && (client.reliable ==> ok)
      invariant ok ==> |hs| == i && forall j :: 0 <= j < i ==> hs[j] == HashAt(client.store, keys[j])
    {
      var h;
      h, ok := client.HGetAll(keys[i]);
      hs, i := hs + [h], i + 1;
    }
  }

  /** An entry read through the overlay, or one that a failed pipeline passes off as missing. */
  ghost predicate Read(d: DB, ok: bool, k: string, v: Hash, e: Outcome)
    reads d, d.client
  {
    if ok || Has(d.txTsEntryMap, k) then
      v == Peek(d.txTsEntryMap, d.client.store, k) && e == if v == map[] then Fail(EntryNotExist) else Pass
    else v == map[] && e == Fail(EntryNotExist)
  }

  /** An entry that the overlay holds. */
  ghost predicate Hit(d: DB, k: string, v: Hash, e: Outcome)
    reads d, d.client
  {
    Has(d.txTsEntryMap, k) && Read(d, true, k, v, e)
  }

  /** getEntries: overlay hits first, the misses in one pipeline, results put back in place. Unless
      the pipeline fails, every key gets the answer getEntry would give, repeats included. */
  method GetEntries(d: DB, ts: TableSpec, keys: seq<Key>) returns (values: seq<Hash>, errors: seq<Outcome>, ok: bool)
    ensures |values| == |keys| && (errors == [] || |errors| == |keys|) && (d.client.reliable ==> ok)
    ensures forall i :: 0 <= i < |keys| ==> Read(d, ok, Key2Redis(ts, keys[i]), values[i], ErrorAt(errors, i))
    ensures d.Valid() && d.err.Pass? ==>
              forall i :: 0 <= i < |keys| && (ok || Has(d.txTsEntryMap, Key2Redis(ts, keys[i]))) ==>
                DB.Reads(d.Visible(), Key2Redis(ts, keys[i]), values[i], ErrorAt(errors, i))
  {
    var keyIdxs, dbKeys;
    values, errors, keyIdxs, dbKeys := CollectHits(d, ts, keys);
    ghost var vs, es := values, errors;
    values, errors, ok := FillMisses(d, keyIdxs, dbKeys, values, errors);
    forall i | 0 <= i < |keys|
      ensures Read(d, ok, Key2Redis(ts, keys[i]), values[i], ErrorAt(errors, i))
    {
      if i in keyIdxs {
        var j :| 0 <= j < |keyIdxs| && keyIdxs[j] == i;
      } else {
        assert Hit(d, Key2Redis(ts, keys[i]), vs[i], ErrorAt(es, i));
      }
    }
    if d.Valid() && d.err.Pass? {
      forall i | 0 <= i < |keys| && (ok || Has(d.txTsEntryMap, Key2Redis(ts, keys[i])))
        ensures DB.Reads(d.Visible(), Key2Redis(ts, keys[i]), values[i], ErrorAt(errors, i))
      {
        d.PeekIsVisible(Key2Redis(ts, keys[i]));
      }
    }
  }

  /** The first half of getEntries: what the overlay answers, and where the misses are. */
  method CollectHits(d: DB, ts: TableSpec, keys: seq<Key>)
    returns (values: seq<Hash>, errors: seq<Outcome>, keyIdxs: seq<nat>, dbKeys: seq<string>)
    ensures |values| == |keys| && (errors == [] || |errors| == |keys|) && |keyIdxs| == |dbKeys|
    ensures forall i :: 0 <= i < |keyIdxs| ==>
              && keyIdxs[i] < |keys| && dbKeys[i] == Key2Redis(ts, keys[keyIdxs[i]])
              && !Has(d.txTsEntryMap, dbKeys[i]) && ErrorAt(errors, keyIdxs[i]) == Pass
    ensures forall i, j :: 0 <= i < j < |keyIdxs| ==> keyIdxs[i] < keyIdxs[j]
    ensures forall j :: 0 <= j < |keys| ==>
              j in keyIdxs || Hit(d, Key2Redis(ts, keys[j]), values[j], ErrorAt(errors, j))
  {
    values, errors := seq(|keys|, _ => map[]), [];
    keyIdxs, dbKeys := [], [];
    for idx := 0 to |keys|
      invariant |values| == |keys| && (errors == [] || |errors| == |keys|) && |keyIdxs| == |dbKeys|
      invariant forall i :: 0 <= i < |keyIdxs| ==>
                  && keyIdxs[i] < idx && dbKeys[i] == Key2Redis(ts, keys[keyIdxs[i]])
                  && !Has(d.txTsEntryMap, dbKeys[i]) && ErrorAt(errors, keyIdxs[i]) == Pass
      invariant forall i, j :: 0 <= i < j < |keyIdxs| ==> keyIdxs[i] < keyIdxs[j]
      invariant forall j :: 0 <= j < idx ==>
                  j in keyIdxs || Hit(d, Key2Redis(ts, keys[j]), values[j], ErrorAt(errors, j))
      invariant forall j :: idx <= j < |keys| ==> ErrorAt(errors, j) == Pass
    {
      var entry := Key2Redis(ts, keys[idx]);
      if Has(d.txTsEntryMap, entry) {
        values := values[idx := At(d.txTsEntryMap, entry)];
        if values[idx] == map[] {
          errors := SetError(errors, idx, |keys|, Fail(EntryNotExist));
        }
      } else {
        ghost var before := keyIdxs;
        keyIdxs, dbKeys := keyIdxs + [idx], dbKeys + [entry];
        assert keyIdxs[|before|] == idx;
        assert forall j :: j in before ==> j in keyIdxs;
      }
    }
  }

  /** The second half of getEntries. */
  method FillMisses(d: DB, keyIdxs: seq<nat>, dbKeys: seq<string>, values: seq<Hash>, errors: seq<Outcome>)
    returns (values': seq<Hash>, errors': seq<Outcome>, ok: bool)
    requires |keyIdxs| == |dbKeys| && (errors == [] || |errors| == |values|)
    requires forall i :: 0 <= i < |keyIdxs| ==> keyIdxs[i] < |values| && ErrorAt(errors, keyIdxs[i]) == Pass
    requires forall i, j :: 0 <= i < j < |keyIdxs| ==> keyIdxs[i] < keyIdxs[j]
    requires forall i :: 0 <= i < |dbKeys| ==> !Has(d.txTsEntryMap, dbKeys[i])
    ensures |values'| == |values| && (errors' == [] || |errors'| == |values|) && (d.client.reliable ==> ok)
    ensures forall i :: 0 <= i < |keyIdxs| ==>
              Read(d, ok, dbKeys[i], values'[keyIdxs[i]], ErrorAt(errors', keyIdxs[i]))
    ensures forall j :: 0 <= j < |values| && j !in keyIdxs ==>
              values'[j] == values[j] && ErrorAt(errors', j) == ErrorAt(errors, j)
  {
    values', errors' := values, errors;
    var hs;
    hs, ok := GetMultiEntry(d.client, dbKeys);
    for i := 0 to |dbKeys|
      invariant |values'| == |values| && (errors' == [] || |errors'| == |values|)
      invariant forall j :: 0 <= j < i ==>
                  Read(d, ok, dbKeys[j], values'[keyIdxs[j]], ErrorAt(errors', keyIdxs[j]))
      invariant forall j :: i <= j < |keyIdxs| ==> ErrorAt(errors', keyIdxs[j]) == Pass
      invariant forall j :: 0 <= j < |values| && j !in keyIdxs ==>
                  values'[j] == values[j] && ErrorAt(errors', j) == ErrorAt(errors, j)
    {
      var keyIdx := keyIdxs[i];
      assert keyIdx in keyIdxs;
      var h := if ok then hs[i] else map[];
      values' := values'[keyIdx := h];
      if h == map[] {
        errors' := SetError(errors', keyIdx, |values|, Fail(EntryNotExist));
      }
    }
  }

  // ----- the validator's pipelined queries -----

  /** A pattern whose table part is literal. */
  predicate TablePattern(p: string) {
    SEPARATOR in p && PlainName(Head(p)) && Tail(p) != ""
  }

  lemma TablePatternRows(p: string, k: string)
    requires TablePattern(p)
    ensures Match(k, p) ==> SEPARATOR in k && Head(k) == Head(p)
  {
    HeadTail(p);
    PlainPrefix(Head(p), k, Tail(p));
  }

  lemma VisibleMatch(d: DB, p: string, k: string)
    requires d.Valid() && d.err.Pass? && TablePattern(p) && Match(k, p)
    ensures k in d.Visible() <==>
            var table := OverlayTable(d.txTsEntryMap, Head(p));
            if k in table then table[k] != map[] else k in d.client.store
  {
    TablePatternRows(p, k);
    d.VisibleRow(k);
  }

  function OverlayTable(overlay: Tables<Hash>, t: string): map<string, Hash> {
    if t in overlay then overlay[t] else map[]
  }

  /** pipeKeysResult.update: the KEYS reply, corrected by the overlay in a map of flags. */
  method UpdateKeys(d: DB, pattern: string, reply: seq<string>) returns (val: seq<string>)
    requires d.Valid() && d.err.Pass? && TablePattern(pattern)
    requires forall k :: k in reply <==> k in d.client.store && Match(k, pattern)
    ensures NoDuplicates(val)
    ensures forall k :: k in val <==> k in d.Visible() && Match(k, pattern)
  {
    var keyMap: map<string, bool> := map[];
    for i := 0 to |reply|
      invariant keyMap.Keys == set k | k in reply[..i]
      invariant forall k :: k in keyMap ==> keyMap[k]
    {
      assert reply[..i + 1] == reply[..i] + [reply[i]];
      keyMap := keyMap[reply[i] := true];
    }
    assert reply[..|reply|] == reply;
    var table := OverlayTable(d.txTsEntryMap, Head(pattern));
    keyMap := CorrectKeys(keyMap, table, pattern);
    forall k
      ensures k in keyMap && keyMap[k] <==> k in d.Visible() && Match(k, pattern)
    {
      if Match(k, pattern) {
        VisibleMatch(d, pattern, k);
      }
    }
    val := FlaggedKeys(keyMap);
  }

  method CorrectKeys(flags: map<string, bool>, table: map<string, Hash>, pattern: string)
    returns (keyMap: map<string, bool>)
    requires forall k :: k in flags ==> flags[k]
    ensures forall k :: k in keyMap && keyMap[k] <==>
              if k in table && Match(k, pattern) then table[k] != map[] else k in flags
  {
    keyMap := flags;
    var rest := table.Keys;
    while rest != {}
      invariant rest <= table.Keys
      invariant forall k :: k in keyMap && keyMap[k] <==>
                  if k in table && k !in rest && Match(k, pattern) then table[k] != map[] else k in flags
      decreases rest
    {
      var k :| k in rest;
      var matched := KeyMatch(k, pattern);
      if matched {
        if k in keyMap && keyMap[k] {
          if table[k] == map[] {
            keyMap := keyMap[k := false];
          }
        } else if table[k] != map[] {
          keyMap := keyMap[k := true];
        }
      }
      rest := rest - {k};
    }
  }

  method FlaggedKeys(keyMap: map<string, bool>) returns (val: seq<string>)
    ensures NoDuplicates(val)
    ensures forall k :: k in val <==> k in keyMap && keyMap[k]
  {
    val := [];
    var rest := keyMap.Keys;
    while rest != {}
      invariant rest <= keyMap.Keys && NoDuplicates(val)
      invariant forall k :: k in val <==> k in keyMap && keyMap[k] && k !in rest
      decreases rest
    {
      var k :| k in rest;
      if keyMap[k] {
        val := val + [k];
      }
      rest := rest - {k};
    }
  }

  /** HGetAll through the pipeline: the overlay row if there is one, else the reply. */
  method PipeHGetAll(d: DB, key: string) returns (val: Hash, ok: bool)
    requires d.Valid() && d.err.Pass? && RowKey(key)
    ensures Has(d.txTsEntryMap, key) || d.client.reliable ==> ok
    ensures ok ==> val == HashAt(d.Visible(), key)
  {
    if Has(d.txTsEntryMap, key) {
      val, ok := At(d.txTsEntryMap, key), true;
    } else {
      val, ok := d.client.HGetAll(key);
    }
    assert Peek(d.txTsEntryMap, d.client.store, key) == HashAt(d.Visible(), key);
  }

  function FieldOf(h: Hash, f: string): Option<string> {
    if f in h then Some(h[f]) else None
  }

  /** HMGet through the pipeline: one value, or nothing, for each field asked for. */
  method PipeHMGet(d: DB, key: string, fields: seq<string>) returns (vals: seq<Option<string>>, ok: bool)
    requires d.Valid() && d.err.Pass? && RowKey(key)
    ensures Has(d.txTsEntryMap, key) || d.client.reliable ==> ok
    ensures ok ==> |vals| == |fields|
    ensures ok ==> forall i :: 0 <= i < |fields| ==> vals[i] == FieldOf(HashAt(d.Visible(), key), fields[i])
  {
    var h;
    h, ok := PipeHGetAll(d, key);
    vals := [];
    for i := 0 to |fields|
      invariant |vals| == i
      invariant forall j :: 0 <= j < i ==> vals[j] == FieldOf(h, fields[j])
    {
      vals := vals + [FieldOf(h, fields[i])];
    }
  }

  // ----- Count -----

  /** getTxData without rows: pending rows as present (Some) or deleted (None). */
  method GetTxData(d: DB, pattern: string) returns (txEntries: map<string, Option<()>>)
    ensures forall k :: k in txEntries <==>
              k in OverlayTable(d.txTsEntryMap, Head(pattern)) && Match(k, pattern)
    ensures forall k :: k in txEntries ==>
              (txEntries[k].Some? <==> OverlayTable(d.txTsEntryMap, Head(pattern))[k] != map[])
  {
    txEntries := map[];
    var table := OverlayTable(d.txTsEntryMap, Head(pattern));
    var rest := table.Keys;
    while rest != {}
      invariant rest <= table.Keys
      invariant forall k :: k in txEntries <==> k in table && k !in rest && Match(k, pattern)
      invariant forall k :: k in txEntries ==> (txEntries[k].Some? <==> table[k] != map[])
      decreases rest
    {
      var k :| k in rest;
      var matched := KeyMatch(k, pattern);
      if matched {
        txEntries := txEntries[k := if table[k] != map[] then Some(()) else None];
      }
      rest := rest - {k};
    }
  }

  /** Stored keys that have no pending entry are added as present. */
  method AddStored(stored: seq<string>, txEntries: map<string, Option<()>>) returns (entries: map<string, Option<()>>)
    ensures forall k :: k in entries <==> k in txEntries || k in stored
    ensures forall k :: k in entries ==> entries[k] == if k in txEntries then txEntries[k] else Some(())
  {
    entries := txEntries;
    for i := 0 to |stored|
      invariant forall k :: k in entries <==> k in txEntries || k in stored[..i]
      invariant forall k :: k in entries ==> entries[k] == if k in txEntries then txEntries[k] else Some(())
    {
      assert stored[..i + 1] == stored[..i] + [stored[i]];
      if stored[i] !in entries {
        entries := entries[stored[i] := Some(())];
      }
    }
    assert stored[..|stored|] == stored;
  }

  method CountPresent(entries: map<string, Option<()>>) returns (cnt: nat)
    ensures cnt == |set k | k in entries && entries[k].Some?|
  {
    cnt := 0;
    ghost var counted: set<string> := {};
    var rest := entries.Keys;
    while rest != {}
      invariant rest <= entries.Keys && cnt == |counted|
      invariant counted == set k | k in entries && k !in rest && entries[k].Some?
      decreases rest
    {
      var k :| k in rest;
      if entries[k].Some? {
        cnt := cnt + 1;
        counted := counted + {k};
      }
      rest := rest - {k};
    }
    assert counted == set k | k in entries && entries[k].Some?;
  }

  /** The count_entries script without predicate and field. */
  method CountEntries(stored: seq<string>, txEntries: map<string, Option<()>>) returns (cnt: nat)
    ensures cnt == |Present(stored, txEntries)|
  {
    var entries := AddStored(stored, txEntries);
    cnt := CountPresent(entries);
    assert Present(stored, txEntries) == set k | k in entries && entries[k].Some?;
  }

  function Present(stored: seq<string>, txEntries: map<string, Option<()>>): set<string> {
    set k | k in txEntries.Keys + (set k | k in stored) && (k in txEntries ==> txEntries[k].Some?)
  }

  /** Count without a predicate is the number of visible rows that match. */
  method Count(d: DB, pattern: string) returns (cnt: nat, ok: bool)
    requires d.Valid() && d.err.Pass? && TablePattern(pattern)
    ensures d.client.reliable ==> ok
    ensures ok ==> cnt == |set k | k in d.Visible() && Match(k, pattern)|
  {
    var txEntries := GetTxData(d, pattern);
    var stored;
    stored, ok := d.client.Keys(pattern);
    cnt := CountEntries(stored, txEntries);
    if ok {
      forall k
        ensures k in Present(stored, txEntries) <==> k in d.Visible() && Match(k, pattern)
      {
        if Match(k, pattern) {
          VisibleMatch(d, pattern, k);
        }
      }
      assert Present(stored, txEntries) == set k | k in d.Visible() && Match(k, pattern);
    }
  }
}
