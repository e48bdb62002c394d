/** Listing and counting keys through the overlay: GetKeysPattern and ExistKeysPattern. */
module KeyListing {
  import opened Redis
  import opened Keys
  import opened Glob
  import opened Overlay
  import opened ConfigDB

  /** Key.Equals */
  method Equals(k: Key, other: Key) returns (r: bool)
    ensures r <==> k == other
  {
    if |k.comp| != |other.comp| {
      return false;
    }
    for i := 0 to |k.comp|
      invariant k.comp[..i] == other.comp[..i]
    {
      if k.comp[i] != other.comp[i] {
        return false;
      }
      assert k.comp[..i + 1] == k.comp[..i] + [k.comp[i]];
    }
    assert k.comp[..|k.comp|] == k.comp && other.comp[..|k.comp|] == other.comp;
    return true;
  }

  method Find(keys: seq<Key>, key: Key) returns (present: bool, index: nat)
    ensures present <==> key in keys
    ensures present ==> index < |keys| && keys[index] == key
  {
    present, index := false, 0;
    var i := 0;
    while i < |keys| && !present
      invariant 0 <= i <= |keys|
      invariant !present ==> key !in keys[..i]
      invariant present ==> index < |keys| && keys[index] == key
    {
      index := i;
      present := Equals(key, keys[i]);
      i := i + 1;
    }
  }

  predicate RowOf(ts: TableSpec, k: string) {
    RowKey(k) && Head(k) == ts.name
  }

  /** keys are the split forms of the row keys rks, each once. */
  ghost predicate SplitForms(keys: seq<Key>, rks: seq<string>, ts: TableSpec) {
    && |keys| == |rks| && NoDuplicates(rks)
    && forall i :: 0 <= i < |rks| ==> RowOf(ts, rks[i]) && keys[i] == Redis2Key(ts, rks[i])
  }

  lemma SplitInjective(ts: TableSpec, k: string, l: string)
    requires RowOf(ts, k) && RowOf(ts, l) && Redis2Key(ts, k) == Redis2Key(ts, l)
    ensures k == l
  {
    RedisKeyRoundTrip(ts, k);
    RedisKeyRoundTrip(ts, l);
  }

  lemma SplitFormsFind(keys: seq<Key>, rks: seq<string>, ts: TableSpec, k: string)
    requires SplitForms(keys, rks, ts) && RowOf(ts, k)
    ensures Redis2Key(ts, k) in keys <==> k in rks
    ensures forall i :: 0 <= i < |keys| && keys[i] == Redis2Key(ts, k) ==> rks[i] == k
  {
    forall i | 0 <= i < |keys| && keys[i] == Redis2Key(ts, k)
      ensures rks[i] == k
    {
      SplitInjective(ts, rks[i], k);
    }
    if k in rks {
      var i :| 0 <= i < |rks| && rks[i] == k;
      assert keys[i] in keys;
    }
  }

  /** Adjusting the keys found in the store by the overlay of their table: deleted rows are cut
      out of the slice in place, new rows are appended. */
  method MergeOverlay(ts: TableSpec, pattern: string, found: seq<string>, table: map<string, Hash>)
    returns (keys: seq<Key>, ghost rks: seq<string>)
    requires NoDuplicates(found) && forall k :: k in found ==> RowOf(ts, k)
    requires forall k :: k in table ==> RowOf(ts, k)
    ensures SplitForms(keys, rks, ts) && NoDuplicates(keys)
    ensures forall k :: k in rks <==> if k in table && Match(k, pattern) then table[k] != map[] else k in found
    ensures forall k :: RowOf(ts, k) ==>
              (Redis2Key(ts, k) in keys <==> if k in table && Match(k, pattern) then table[k] != map[] else k in found)
  {
    keys, rks := [], found;
    for i := 0 to |found|
      invariant |keys| == i
      invariant forall j :: 0 <= j < i ==> RowOf(ts, found[j]) && keys[j] == Redis2Key(ts, found[j])
    {
      assert found[i] in found;
      keys := keys + [Redis2Key(ts, found[i])];
    }
    assert SplitForms(keys, rks, ts) by {
      forall i | 0 <= i < |rks|
        ensures RowOf(ts, rks[i])
      {
        assert rks[i] in found;
      }
    }
    var rest := table.Keys;
    while rest != {}
      invariant rest <= table.Keys && SplitForms(keys, rks, ts)
      invariant forall k :: k in rks <==>
                  if k in table && k !in rest && Match(k, pattern) then table[k] != map[] else k in found
      decreases rest
    {
      var k :| k in rest;
      keys, rks := MergeOne(ts, pattern, keys, rks, k, table[k]);
      rest := rest - {k};
    }
    SplitFormsDistinct(keys, rks, ts);
    forall k | RowOf(ts, k)
      ensures Redis2Key(ts, k) in keys <==> k in rks
    {
      SplitFormsFind(keys, rks, ts, k);
    }
  }

  lemma SplitFormsDistinct(keys: seq<Key>, rks: seq<string>, ts: TableSpec)
    requires SplitForms(keys, rks, ts)
    ensures NoDuplicates(keys)
  {
    forall i, j | 0 <= i < j < |keys|
      ensures keys[i] != keys[j]
    {
      if keys[i] == keys[j] {
        SplitInjective(ts, rks[i], rks[j]);
      }
    }
  }

  /** The body of the overlay loop. */
  method MergeOne(ts: TableSpec, pattern: string, keys: seq<Key>, ghost rks: seq<string>, k: string, h: Hash)
    returns (keys': seq<Key>, ghost rks': seq<string>)
    requires SplitForms(keys, rks, ts) && RowOf(ts, k)
    ensures SplitForms(keys', rks', ts)
    ensures forall j :: j in rks' <==> if j == k && Match(k, pattern) then h != map[] else j in rks
  {
    keys', rks' := keys, rks;
    var matched := KeyMatch(k, pattern);
    if !matched {
      return;
    }
    var key := Redis2Key(ts, k);
    SplitFormsFind(keys, rks, ts, k);
    var present, index := Find(keys, key);
    if !present {
      if h != map[] {
        keys', rks' := keys + [key], rks + [k];
      }
    } else if h == map[] {
      keys', rks' := keys[..index] + keys[index + 1..], rks[..index] + rks[index + 1..];
      CutOne(rks, index);
    }
  }

  lemma CutOne<T>(s: seq<T>, i: nat)
    requires NoDuplicates(s) && i < |s|
    ensures NoDuplicates(s[..i] + s[i + 1..])
    ensures forall x :: x in s[..i] + s[i + 1..] <==> x in s && x != s[i]
  {
    var t := s[..i] + s[i + 1..];
    forall x | x in s && x != s[i]
      ensures x in t
    {
      var j :| 0 <= j < |s| && s[j] == x;
      assert t[if j < i then j else j - 1] == x;
    }
  }

  /** The rows of s that match, each exactly once, in split form. */
  ghost predicate Lists(keys: seq<Key>, ts: TableSpec, pattern: string, s: Store) {
    && NoDuplicates(keys)
    && (forall i :: 0 <= i < |keys| ==>
          var k := Key2Redis(ts, keys[i]);
          k in s && Match(k, pattern) && RowOf(ts, k) && keys[i] == Redis2Key(ts, k))
    && (forall k :: k in s && Match(k, pattern) ==> RowOf(ts, k) && Redis2Key(ts, k) in keys)
  }

  lemma SplitFormsList(keys: seq<Key>, rks: seq<string>, ts: TableSpec, pattern: string, s: Store)
    requires SplitForms(keys, rks, ts) && forall k :: k in rks <==> k in s && Match(k, pattern)
    ensures Lists(keys, ts, pattern, s)
  {
    SplitFormsDistinct(keys, rks, ts);
    forall i | 0 <= i < |keys|
      ensures Key2Redis(ts, keys[i]) == rks[i] && rks[i] in rks
    {
      RedisKeyRoundTrip(ts, rks[i]);
    }
    forall k | k in s && Match(k, pattern)
      ensures RowOf(ts, k) && Redis2Key(ts, k) in keys
    {
      var i :| 0 <= i < |rks| && rks[i] == k;
      assert keys[i] in keys;
    }
  }

  predicate GoodPattern(ts: TableSpec, pat: Key) {
    PlainName(ts.name) && Join(pat.comp) != ""
  }

  lemma MatchesAreRows(ts: TableSpec, pat: Key, k: string)
    requires GoodPattern(ts, pat)
    ensures Match(k, Key2Redis(ts, pat)) <==> SEPARATOR in k && Head(k) == ts.name && Match(Tail(k), Join(pat.comp))
  {
    PlainPrefix(ts.name, k, Join(pat.comp));
  }

  lemma VisibleByPeek(s: Store, overlay: Tables<Hash>, ws: seq<Command>, k: string)
    requires Compact(s) && Tracks(s, overlay, ws)
    ensures k in Replay(s, ws) <==> Peek(overlay, s, k) != map[]
  {
    ReplayCompact(s, ws);
    assert Peek(overlay, s, k) == HashAt(Replay(s, ws), k);
  }

  /** GetKeysPattern on a write-enabled handle. */
  method GetKeysPattern(d: DB, ts: TableSpec, pat: Key) returns (keys: seq<Key>, e: Outcome)
    requires d.Valid() && d.err.Pass? && GoodPattern(ts, pat)
    ensures e.Pass? || (e == Fail(RedisFailure) && !d.client.reliable)
    ensures e.Pass? ==> Lists(keys, ts, Key2Redis(ts, pat), d.Visible())
  {
    var pattern := Key2Redis(ts, pat);
    var found, ok := d.client.Keys(pattern);
    if !ok {
      return [], Fail(RedisFailure);
    }
    var table := OverlayOf(d.txTsEntryMap, ts);
    forall k | Match(k, pattern)
      ensures SEPARATOR in k && Head(k) == ts.name
    {
      MatchesAreRows(ts, pat, k);
    }
    ghost var rks;
    keys, rks := MergeOverlay(ts, pattern, found, table);
    forall k
      ensures k in rks <==> k in d.Visible() && Match(k, pattern)
    {
      d.VisibleRow(k);
    }
    SplitFormsList(keys, rks, ts, pattern, d.Visible());
    e := Pass;
  }

  function OverlayOf(overlay: Tables<Hash>, ts: TableSpec): (table: map<string, Hash>)
    requires WellKeyed(overlay)
    ensures forall k :: k in table ==> RowOf(ts, k)
  {
    if ts.name in overlay then overlay[ts.name] else map[]
  }

  /** Does the overlay hold a row with fields whose components match the pattern? */
  ghost predicate OverlayHit(overlay: Tables<Hash>, ts: TableSpec, pat: Key) {
    ts.name in overlay &&
    exists k :: k in overlay[ts.name] && SEPARATOR in k
                && overlay[ts.name][k] != map[] && KeyMatches(Redis2Key(ts, k), pat)
  }

  /** For joinable patterns, a row of the table that matches component by component matches. */
  lemma JoinableRowMatches(ts: TableSpec, pat: Key, k: string)
    requires GoodPattern(ts, pat) && Joinable(pat) && RowOf(ts, k) && KeyMatches(Redis2Key(ts, k), pat)
    ensures Match(k, Key2Redis(ts, pat))
  {
    JoinMatches(Redis2Key(ts, k).comp, pat.comp);
    JoinSplit(Tail(k));
    if ts.compCt > 0 {
      JoinSplitN(Tail(k), ts.compCt);
    }
    MatchesAreRows(ts, pat, k);
  }

  /** The components of the pattern are as many as those of a row can be, none with a separator. */
  predicate Splittable(ts: TableSpec, pat: Key) {
    |pat.comp| >= 1 && (ts.compCt > 0 ==> |pat.comp| <= ts.compCt) && SeparatorFree(pat.comp)
  }

  /** The overlay shortcut is sound for every row of the table exactly when the pattern is joinable. */
  lemma ShortcutIsSound(ts: TableSpec, pat: Key)
    requires GoodPattern(ts, pat) && Splittable(ts, pat)
    ensures Joinable(pat) <==>
            forall k :: RowOf(ts, k) && KeyMatches(Redis2Key(ts, k), pat) ==> Match(k, Key2Redis(ts, pat))
  {
    if Joinable(pat) {
      forall k | RowOf(ts, k) && KeyMatches(Redis2Key(ts, k), pat)
        ensures Match(k, Key2Redis(ts, pat))
      {
        JoinableRowMatches(ts, pat, k);
      }
    } else {
      SampleRow(ts, pat);
      var k := Key2Redis(ts, SampleKey(pat));
      assert RowOf(ts, k) && KeyMatches(Redis2Key(ts, k), pat) && !Match(k, Key2Redis(ts, pat));
    }
  }

  function SampleKey(pat: Key): Key {
    Key(Samples(pat.comp))
  }

  /** The row that shows it. */
  lemma SampleRow(ts: TableSpec, pat: Key)
    requires GoodPattern(ts, pat) && Splittable(ts, pat) && !Joinable(pat)
    ensures GoodKey(ts, SampleKey(pat))
    ensures var k := Key2Redis(ts, SampleKey(pat));
            && RowOf(ts, k) && Redis2Key(ts, k) == SampleKey(pat)
            && KeyMatches(Redis2Key(ts, k), pat) && !Match(k, Key2Redis(ts, pat))
  {
    var key := SampleKey(pat);
    JoinMatchesExactly(pat);
    SamplesSeparatorFree(pat.comp);
    TableOfKey(ts, key);
    KeyRoundTrip(ts, key);
    MatchesAreRows(ts, pat, Key2Redis(ts, key));
  }

  /** For joinable patterns an overlay hit is a visible row that GetKeysPattern would list. */
  lemma OverlayHitIsListed(s: Store, overlay: Tables<Hash>, ws: seq<Command>, ts: TableSpec, pat: Key)
    requires Compact(s) && Tracks(s, overlay, ws) && WellKeyed(overlay)
    requires GoodPattern(ts, pat) && Joinable(pat) && OverlayHit(overlay, ts, pat)
    ensures exists k :: k in Replay(s, ws) && Match(k, Key2Redis(ts, pat))
  {
    var k :| k in overlay[ts.name] && SEPARATOR in k
             && overlay[ts.name][k] != map[] && KeyMatches(Redis2Key(ts, k), pat);
    VisibleByPeek(s, overlay, ws, k);
    JoinableRowMatches(ts, pat, k);
  }

  /** ExistKeysPattern on a write-enabled handle: the overlay is tried first, on components. */
  method ExistKeysPattern(d: DB, ts: TableSpec, pat: Key) returns (found: bool, e: Outcome)
    requires d.Valid() && d.err.Pass? && GoodPattern(ts, pat)
    ensures e.Pass? || (e == Fail(RedisFailure) && !OverlayHit(d.txTsEntryMap, ts, pat) && !d.client.reliable)
    ensures e.Pass? ==>
              (found <==> OverlayHit(d.txTsEntryMap, ts, pat)
                          || exists k :: k in d.Visible() && Match(k, Key2Redis(ts, pat)))
    ensures e.Pass? && Joinable(pat) ==> (found <==> exists k :: k in d.Visible() && Match(k, Key2Redis(ts, pat)))
  {
    found, e := false, Pass;
    var table := OverlayOf(d.txTsEntryMap, ts);
    var rest := table.Keys;
    while rest != {} && !found
      invariant rest <= table.Keys
      invariant found ==> OverlayHit(d.txTsEntryMap, ts, pat)
      invariant !found ==> forall k :: k in table && k !in rest ==>
                             RowOf(ts, k) && (table[k] == map[] || !KeyMatches(Redis2Key(ts, k), pat))
      decreases |rest|
    {
      var k :| k in rest;
      var matched := Matches(Redis2Key(ts, k), pat);
      if matched && table[k] != map[] {
        found := true;
      }
      rest := rest - {k};
    }
    if found {
      if Joinable(pat) {
        BelievedAt(d.client.store, d.txTsEntryHGetAll);
        OverlayHitIsListed(d.Base(), d.txTsEntryMap, Wires(d.txCmds), ts, pat);
      }
      return;
    }
    var keys;
    keys, e := GetKeysPattern(d, ts, pat);
    if e.Pass? && |keys| > 0 {
      assert Key2Redis(ts, keys[0]) in d.Visible();
      found := true;
    }
  }

  /** A false positive for every other pattern: with a single pending row it is found, though
      GetKeysPattern lists nothing. */
  method FalsePositive(ts: TableSpec, pat: Key) returns (found: bool, keys: seq<Key>)
    requires GoodPattern(ts, pat) && Splittable(ts, pat) && !Joinable(pat)
    ensures found && keys == []
  {
    SampleRow(ts, pat);
    var value: Hash := map["f" := "v"];
    assert "f" in value;
    var d := OnePendingRow(ts, SampleKey(pat), value);
    var e;
    found, e := ExistKeysPattern(d, ts, pat);
    keys, e := GetKeysPattern(d, ts, pat);
    ListedMatches(keys, ts, Key2Redis(ts, pat), d.Visible());
  }

  lemma ListedMatches(keys: seq<Key>, ts: TableSpec, pattern: string, s: Store)
    requires Lists(keys, ts, pattern, s)
    ensures keys != [] ==> exists k :: k in s && Match(k, pattern)
  {
    if keys != [] {
      assert Key2Redis(ts, keys[0]) in s;
    }
  }

  method OnePendingRow(ts: TableSpec, key: Key, value: Hash) returns (d: DB)
    requires GoodKey(ts, key) && value != map[]
    ensures d.Valid() && d.err.Pass? && d.client.reliable && d.Visible() == map[Key2Redis(ts, key) := value]
    ensures Has(d.txTsEntryMap, Key2Redis(ts, key)) && At(d.txTsEntryMap, Key2Redis(ts, key)) == value
  {
    var client := new Client(map[], true, false);
    d := new DB(client, Options(false, false, false, 0), true);
    var e := d.StartTx({});
    e := d.ModEntry(ts, key, value);
    ghost var k := Key2Redis(ts, key);
    assert map[] + value == value;
    assert d.Visible() == map[k := value];
    d.PeekIsVisible(k);
  }

  /** The components a\ and b make such a pattern; *\ and b do not. */
  lemma ShowcasePatterns(ts: TableSpec)
    requires ts == TableSpec("T", 2, false)
    ensures var pat := Key(["a\\", "b"]); GoodPattern(ts, pat) && Splittable(ts, pat) && !Joinable(pat)
    ensures var pat := Key(["*\\", "b"]); GoodPattern(ts, pat) && Splittable(ts, pat) && Joinable(pat)
  {
    var p, q := "a\\", "*\\";
    assert "\\"[1..] == "" && Tokens("\\") == [Lit('\\')] + Tokens("");
    assert p[1..] == "\\" && Tokens(p) == [Lit('a')] + Tokens(p[1..]);
    assert q[1..] == "\\" && Tokens(q) == [Star] + Tokens(q[1..]);
    assert Dangles("\\") && Dangles(p) && Dangles(q);
    assert AllButLast(Tokens(p)) == [Lit('a')] && !CanPrecede(p);
    assert PaddingFrom([], 0) && [Star][1..] == [] && AbsorbingFrom([Star], 0);
    assert AllButLast(Tokens(q)) == [Star] && CanPrecede(q);
    assert Key([p, "b"]).comp[0] == p && Key([q, "b"]).comp[0] == q;
  }

  // ----- DeleteTable -----

  function WithoutTable(s: Store, table: string): Store {
    map k | k in s && Head(k) != table :: s[k]
  }

  /** GetKeys lists every row of the table. */
  method GetKeys(d: DB, ts: TableSpec) returns (keys: seq<Key>, e: Outcome)
    requires d.Valid() && d.err.Pass? && PlainName(ts.name)
    ensures e.Pass? || (e == Fail(RedisFailure) && !d.client.reliable)
    ensures e.Pass? ==>
              forall k :: k in d.Visible() && Head(k) == ts.name ==>
                exists i :: 0 <= i < |keys| && Key2Redis(ts, keys[i]) == k
    ensures e.Pass? ==>
              forall i :: 0 <= i < |keys| ==> GoodKey(ts, keys[i]) && Head(Key2Redis(ts, keys[i])) == ts.name
  {
    var pat := Key(["*"]);
    keys, e := GetKeysPattern(d, ts, pat);
    if e.Pass? {
      d.RowsAreGood();
      forall k | k in d.Visible() && Head(k) == ts.name
        ensures exists i :: 0 <= i < |keys| && Key2Redis(ts, keys[i]) == k
      {
        StarMatchesAll(Tail(k));
        MatchesAreRows(ts, pat, k);
        var i :| 0 <= i < |keys| && keys[i] == Redis2Key(ts, k);
        RedisKeyRoundTrip(ts, k);
      }
      forall i | 0 <= i < |keys|
        ensures Join(keys[i].comp) != ""
      {
        var k := Key2Redis(ts, keys[i]);
        HeadTail(k);
        assert RowKey(k);
      }
    }
  }

  /** Some rows of the table are gone, and nothing else changed. */
  ghost predicate Shrunk(now: Store, rows: Store, table: string) {
    && now.Keys <= rows.Keys
    && (forall k :: k in now ==> now[k] == rows[k])
    && forall k :: k in rows && k !in now ==> Head(k) == table
  }

  /** None of the first n listed rows is left. */
  ghost predicate Gone(now: Store, ts: TableSpec, keys: seq<Key>, n: nat) {
    n <= |keys| && forall i :: 0 <= i < n ==> Key2Redis(ts, keys[i]) !in now
  }

  lemma AllGone(now: Store, rows: Store, ts: TableSpec, keys: seq<Key>)
    requires Shrunk(now, rows, ts.name) && Gone(now, ts, keys, |keys|)
    requires forall k :: k in rows && Head(k) == ts.name ==> exists i :: 0 <= i < |keys| && Key2Redis(ts, keys[i]) == k
    ensures now == WithoutTable(rows, ts.name)
  {
  }

  lemma ShrunkElsewhere(now: Store, rows: Store, table: string)
    requires Shrunk(now, rows, table)
    ensures forall k :: Head(k) != table ==> HashAt(now, k) == HashAt(rows, k)
  {
  }

  /** The handle is in order. */
  ghost predicate Live(d: DB)
    reads d, d.client
  {
    d.Valid() && d.err.Pass?
  }

  method DeleteOne(d: DB, ts: TableSpec, key: Key) returns (e: Outcome)
    requires Live(d) && GoodKey(ts, key)
    modifies d, d.client`store, d.client`updated
    ensures Live(d)
    ensures d.Visible() == if e.Pass? then old(d.Visible()) - {Key2Redis(ts, key)} else old(d.Visible())
    ensures e.Pass? && old(d.InStep()) ==> d.InStep()
    ensures old(d.Smooth()) ==> e.Pass? && d.Smooth()
  {
    e := d.DeleteEntry(ts, key);
  }

  method DeleteNth(d: DB, ts: TableSpec, keys: seq<Key>, i: nat, ghost rows: Store) returns (e: Outcome)
    requires Live(d) && Shrunk(d.Visible(), rows, ts.name) && Gone(d.Visible(), ts, keys, i)
    requires i < |keys| && GoodKey(ts, keys[i]) && Head(Key2Redis(ts, keys[i])) == ts.name
    modifies d, d.client`store, d.client`updated
    ensures Live(d) && Shrunk(d.Visible(), rows, ts.name)
    ensures e.Pass? ==> Gone(d.Visible(), ts, keys, i + 1)
    ensures e.Pass? && old(d.InStep()) ==> d.InStep()
    ensures old(d.Smooth()) ==> e.Pass? && d.Smooth()
  {
    e := DeleteOne(d, ts, keys[i]);
  }

  /** The loop of DeleteTable. */
  method DeleteListed(d: DB, ts: TableSpec, keys: seq<Key>) returns (e: Outcome)
    requires Live(d)
    requires forall i :: 0 <= i < |keys| ==> GoodKey(ts, keys[i]) && Head(Key2Redis(ts, keys[i])) == ts.name
    modifies d, d.client`store, d.client`updated
    ensures Live(d) && Shrunk(d.Visible(), old(d.Visible()), ts.name)
    ensures e.Pass? ==> Gone(d.Visible(), ts, keys, |keys|)
    ensures e.Pass? && old(d.InStep()) ==> d.InStep()
    ensures old(d.Smooth()) ==> e.Pass? && d.Smooth()
  {
    e := Pass;
    var i := 0;
    while i < |keys| && e.Pass?
      invariant 0 <= i <= |keys| && Live(d)
      invariant Shrunk(d.Visible(), old(d.Visible()), ts.name)
      invariant e.Pass? ==> Gone(d.Visible(), ts, keys, i)
      invariant e.Pass? && old(d.InStep()) ==> d.InStep()
      invariant old(d.Smooth()) ==> e.Pass? && d.Smooth()
    {
      e := DeleteNth(d, ts, keys, i, old(d.Visible()));
      i := i + 1;
    }
  }

  /** DeleteTable */
  method DeleteTable(d: DB, ts: TableSpec) returns (e: Outcome)
    requires Live(d) && PlainName(ts.name)
    modifies d, d.client`store, d.client`updated
    ensures Live(d)
    ensures old(d.Smooth()) ==> e.Pass?
    ensures e.Pass? ==> d.Visible() == WithoutTable(old(d.Visible()), ts.name)
    ensures e.Pass? && old(d.InStep()) ==> d.InStep()
    ensures forall k :: Head(k) != ts.name ==> HashAt(d.Visible(), k) == HashAt(old(d.Visible()), k)
  {
    var keys;
    keys, e := GetKeys(d, ts);
    if e.Fail? {
      return;
    }
    e := DeleteListed(d, ts, keys);
    ShrunkElsewhere(d.Visible(), old(d.Visible()), ts.name);
    if e.Pass? {
      AllGone(d.Visible(), old(d.Visible()), ts, keys);
    }
  }
}
