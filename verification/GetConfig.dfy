/** GetConfig on a writable handle: pending commands replayed over a snapshot of tables. */
module GetConfig {
  import opened Redis
  import opened Keys
  import opened Overlay
  import opened ConfigDB

  /** The tables GetConfig returns. Go files each under a spec that holds only its name. */
  type Config = Tables<Hash>

  function Bare(name: string): TableSpec {
    TableSpec(name, 0, false)
  }

  function RowAt(data: Config, k: string): Hash {
    if Has(data, k) then At(data, k) else map[]
  }

  predicate TidyTable(t: string, rows: map<string, Hash>) {
    rows != map[] && forall k :: k in rows ==> Head(k) == t && rows[k] != map[]
  }

  /** No empty entries, no empty tables, every row under its own table. */
  ghost predicate Tidy(data: Config) {
    forall t :: t in data ==> TidyTable(t, data[t])
  }

  /** A single table is picked by its name, several by the bare specs of the row keys. */
  predicate Wanted(filter: seq<TableSpec>, table: string) {
    filter == [] || Bare(table) in filter || (|filter| == 1 && filter[0].name == table)
  }

  function TablesOf(s: Store, filter: seq<TableSpec>): set<string> {
    set k | k in s && Wanted(filter, Head(k)) :: Head(k)
  }

  function RowsOf(s: Store, t: string): map<string, Hash> {
    map k | k in s && Head(k) == t :: s[k]
  }

  function Snapshot(s: Store, filter: seq<TableSpec>): Config {
    map t | t in TablesOf(s, filter) :: RowsOf(s, t)
  }

  lemma SnapshotRows(s: Store, filter: seq<TableSpec>)
    requires Compact(s)
    ensures Tidy(Snapshot(s, filter))
    ensures forall k :: RowAt(Snapshot(s, filter), k) == if Wanted(filter, Head(k)) then HashAt(s, k) else map[]
  {
    var data := Snapshot(s, filter);
    forall t | t in data
      ensures TidyTable(t, data[t])
    {
      var k :| k in s && Wanted(filter, Head(k)) && t == Head(k);
      assert k in data[t];
    }
  }

  lemma TidyExtensional(a: Config, b: Config)
    requires Tidy(a) && Tidy(b) && forall k :: RowAt(a, k) == RowAt(b, k)
    ensures a == b
  {
    forall t | t in a || t in b
      ensures t in a && t in b && a[t] == b[t]
    {
      TidyTableEqual(a, b, t);
    }
  }

  lemma TidyTableEqual(a: Config, b: Config, t: string)
    requires Tidy(a) && Tidy(b) && (t in a || t in b) && forall k :: RowAt(a, k) == RowAt(b, k)
    ensures t in a && t in b && a[t] == b[t]
  {
    if t in a {
      TidyTableIncluded(a, b, t);
    }
    TidyTableIncluded(b, a, t);
    TidyTableIncluded(a, b, t);
    assert a[t].Keys == b[t].Keys;
  }

  lemma TidyTableIncluded(a: Config, b: Config, t: string)
    requires Tidy(a) && Tidy(b) && t in a && forall k :: RowAt(a, k) == RowAt(b, k)
    ensures t in b && forall k :: k in a[t] ==> k in b[t] && a[t][k] == b[t][k]
  {
    assert TidyTable(t, a[t]);
    forall k | k in a[t]
      ensures t in b && k in b[t] && a[t][k] == b[t][k]
    {
      assert RowAt(a, k) == RowAt(b, k);
    }
    var k :| k in a[t];
  }

  /** The pending commands GetConfig replays for this filter. */
  predicate Kept(filter: seq<TableSpec>, c: TxCmd) {
    filter == [] || Bare(c.ts.name) in filter
  }

  function KeptWires(filter: seq<TableSpec>, cs: seq<TxCmd>): seq<Command> {
    if cs == [] then []
    else
      var init, last := KeptWires(filter, cs[..|cs| - 1]), cs[|cs| - 1];
      if Kept(filter, last) then init + [Wire(last)] else init
  }

  lemma {:induction false} KeptReplayAt(filter: seq<TableSpec>, cs: seq<TxCmd>, h: Hash, k: string)
    requires forall i :: 0 <= i < |cs| ==> GoodCmd(cs[i])
    ensures ReplayAt(h, KeptWires(filter, cs), k) ==
            if filter == [] || Bare(Head(k)) in filter then ReplayAt(h, Wires(cs), k) else h
    decreases |cs|
  {
    if cs != [] {
      var init, last := cs[..|cs| - 1], cs[|cs| - 1];
      KeptReplayAt(filter, init, h, k);
      TableOfKey(last.ts, last.key);
      WiresLast(cs, h, k);
      if Kept(filter, last) {
        ReplayAtLast(h, KeptWires(filter, init), Wire(last), k);
      }
    }
  }

  lemma WiresLast(cs: seq<TxCmd>, h: Hash, k: string)
    requires cs != []
    ensures var init, last := cs[..|cs| - 1], cs[|cs| - 1];
            ReplayAt(h, Wires(cs), k) ==
            if Wire(last).key == k then Effect(ReplayAt(h, Wires(init), k), Wire(last)) else ReplayAt(h, Wires(init), k)
  {
    WiresPrefix(cs, |cs| - 1);
  }

  /** Delete the row, and its table with it when it was the last one. */
  function DropRow(data: Config, k: string): Config
    requires Head(k) in data
  {
    var table := data[Head(k)] - {k};
    if table == map[] then data - {Head(k)} else data[Head(k) := table]
  }

  lemma SetRowTidy(data: Config, k: string, h: Hash)
    requires Tidy(data) && h != map[]
    ensures Tidy(With(data, k, h))
  {
    var t := Head(k);
    assert t in data ==> TidyTable(t, data[t]);
    assert TidyTable(t, With(data, k, h)[t]) by {
      assert k in With(data, k, h)[t];
    }
  }

  lemma SetRowAt(data: Config, k: string, h: Hash)
    ensures forall j :: RowAt(With(data, k, h), j) == if j == k then h else RowAt(data, j)
  {
  }

  lemma DropRowTidy(data: Config, k: string)
    requires Tidy(data) && Head(k) in data
    ensures Tidy(DropRow(data, k))
    ensures forall j :: RowAt(DropRow(data, k), j) == if j == k then map[] else RowAt(data, j)
  {
    var t := Head(k);
    var table := data[t] - {k};
    assert TidyTable(t, data[t]);
    if table != map[] {
      assert TidyTable(t, table);
    }
    DropRowAt(data, k);
  }

  lemma DropRowAt(data: Config, k: string)
    requires Head(k) in data
    ensures forall j :: RowAt(DropRow(data, k), j) == if j == k then map[] else RowAt(data, j)
  {
    forall j
      ensures RowAt(DropRow(data, k), j) == if j == k then map[] else RowAt(data, j)
    {
      if j != k && Head(j) == Head(k) && j in data[Head(k)] {
        assert j in data[Head(k)] - {k};
      }
    }
  }

  lemma MergeNonEmpty(h: Hash, g: Hash)
    requires g != map[]
    ensures h + g != map[]
  {
    var f :| f in g;
    assert f in h + g;
  }

  /** One pending command, with the branches of applyTxCache. */
  method ApplyOne(data: Config, cmd: TxCmd) returns (data': Config)
    requires Tidy(data) && GoodCmd(cmd)
    ensures Tidy(data')
    ensures forall k ::
              RowAt(data', k) == if k == Wire(cmd).key then Effect(RowAt(data, k), Wire(cmd)) else RowAt(data, k)
  {
    var cmdTs, keyStr := cmd.ts.name, Key2Redis(Bare(cmd.ts.name), cmd.key);
    TableOfKey(cmd.ts, cmd.key);
    data' := data;
    match cmd.op {
      case TxHMSet =>
        var h := cmd.value;
        if cmdTs in data && keyStr in data[cmdTs] {
          MergeNonEmpty(data[cmdTs][keyStr], cmd.value);
          h := data[cmdTs][keyStr] + cmd.value;
        }
        SetRowTidy(data, keyStr, h);
        SetRowAt(data, keyStr, h);
        data' := With(data, keyStr, h);
      case TxHDel =>
        if cmdTs in data && keyStr in data[cmdTs] {
          var h := data[cmdTs][keyStr] - cmd.value.Keys;
          if h == map[] {
            DropRowTidy(data, keyStr);
            data' := DropRow(data, keyStr);
          } else {
            SetRowTidy(data, keyStr, h);
            SetRowAt(data, keyStr, h);
            data' := With(data, keyStr, h);
          }
        }
      case TxDel =>
        if cmdTs in data {
          DropRowTidy(data, keyStr);
          data' := DropRow(data, keyStr);
        }
    }
  }

  lemma KeptNext(filter: seq<TableSpec>, cs: seq<TxCmd>, i: nat, h: Hash, k: string)
    requires i < |cs|
    ensures ReplayAt(h, KeptWires(filter, cs[..i + 1]), k) ==
            var before := ReplayAt(h, KeptWires(filter, cs[..i]), k);
            if Kept(filter, cs[i]) && Wire(cs[i]).key == k then Effect(before, Wire(cs[i])) else before
  {
    assert cs[..i + 1][..i] == cs[..i];
    ReplayAtLast(h, KeptWires(filter, cs[..i]), Wire(cs[i]), k);
  }

  /** applyTxCache, row by row. */
  method ApplyTxCache(cs: seq<TxCmd>, data: Config, filter: seq<TableSpec>) returns (data': Config)
    requires Tidy(data) && forall i :: 0 <= i < |cs| ==> GoodCmd(cs[i])
    ensures Tidy(data')
    ensures forall k :: RowAt(data', k) == ReplayAt(RowAt(data, k), KeptWires(filter, cs), k)
  {
    data' := data;
    for i := 0 to |cs|
      invariant Tidy(data')
      invariant forall k :: RowAt(data', k) == ReplayAt(RowAt(data, k), KeptWires(filter, cs[..i]), k)
    {
      ghost var before := data';
      if Kept(filter, cs[i]) {
        data' := ApplyOne(data', cs[i]);
      }
      forall k
        ensures RowAt(data', k) == ReplayAt(RowAt(data, k), KeptWires(filter, cs[..i + 1]), k)
      {
        KeptNext(filter, cs, i, RowAt(data, k), k);
        assert RowAt(before, k) == ReplayAt(RowAt(data, k), KeptWires(filter, cs[..i]), k);
      }
    }
    assert cs[..|cs|] == cs;
  }

  /** The filter names tables and nothing else, as the row keys do. */
  predicate BareFilter(filter: seq<TableSpec>) {
    forall f :: f in filter ==> f == Bare(f.name)
  }

  /** What GetConfig returns of one row: pending commands count for tables asked for by a bare
      spec; a single richer spec picks the stored rows, and one among several picks nothing. */
  function RowFor(filter: seq<TableSpec>, s: Store, v: Store, k: string): Hash {
    if filter == [] || Bare(Head(k)) in filter then HashAt(v, k)
    else if Wanted(filter, Head(k)) then HashAt(s, k) else map[]
  }

  /** The snapshot of the store with the pending commands played over it: the rows that a commit would
      leave, even where a failed read has left the handle with another view. */
  method PendingConfig(d: DB, filter: seq<TableSpec>) returns (data: Config)
    requires d.Sound()
    ensures Tidy(data) && forall k :: RowAt(data, k) == RowFor(filter, d.client.store, d.Promised(), k)
    ensures BareFilter(filter) ==> data == Snapshot(d.Promised(), filter)
    ensures forall f :: filter == [f] && f != Bare(f.name) ==> data == Snapshot(d.client.store, filter)
  {
    var snapshot := Snapshot(d.client.store, filter);
    SnapshotRows(d.client.store, filter);
    data := ApplyTxCache(d.txCmds, snapshot, filter);
    d.RowsAreGood();
    forall k
      ensures RowAt(data, k) == RowFor(filter, d.client.store, d.Promised(), k)
    {
      KeptReplayAt(filter, d.txCmds, RowAt(snapshot, k), k);
      ReplayPointwise(d.client.store, Wires(d.txCmds), k);
    }
    ConfigOf(filter, d.client.store, d.Promised(), data);
  }

  lemma ConfigOf(filter: seq<TableSpec>, s: Store, v: Store, data: Config)
    requires Compact(s) && Compact(v) && Tidy(data) && forall k :: RowAt(data, k) == RowFor(filter, s, v, k)
    ensures BareFilter(filter) ==> data == Snapshot(v, filter)
    ensures forall f :: filter == [f] && f != Bare(f.name) ==> data == Snapshot(s, filter)
  {
    if BareFilter(filter) {
      BareConfig(filter, s, v, data);
    }
    if f :| filter == [f] && f != Bare(f.name) {
      RichConfig(f, s, v, data);
    }
  }

  lemma RichConfig(f: TableSpec, s: Store, v: Store, data: Config)
    requires Compact(s) && Tidy(data) && f != Bare(f.name) && forall k :: RowAt(data, k) == RowFor([f], s, v, k)
    ensures data == Snapshot(s, [f])
  {
    SnapshotRows(s, [f]);
    forall k
      ensures RowAt(data, k) == RowAt(Snapshot(s, [f]), k)
    {
      assert Bare(Head(k)) in [f] ==> f == Bare(Head(k));
    }
    TidyExtensional(data, Snapshot(s, [f]));
  }

  lemma BareConfig(filter: seq<TableSpec>, s: Store, v: Store, data: Config)
    requires Compact(v) && Tidy(data) && BareFilter(filter) && forall k :: RowAt(data, k) == RowFor(filter, s, v, k)
    ensures data == Snapshot(v, filter)
  {
    SnapshotRows(v, filter);
    forall k
      ensures RowAt(data, k) == RowAt(Snapshot(v, filter), k)
    {
      assert Wanted(filter, Head(k)) ==> filter == [] || Bare(Head(k)) in filter;
    }
    TidyExtensional(data, Snapshot(v, filter));
  }

  /** The tables a caller asks for, by name. */
  function ByName(filter: seq<TableSpec>): (names: seq<TableSpec>)
    ensures |names| == |filter| && forall i :: 0 <= i < |filter| ==> names[i] == Bare(filter[i].name)
  {
    seq(|filter|, i requires 0 <= i < |filter| => Bare(filter[i].name))
  }

  lemma WantedByName(filter: seq<TableSpec>, t: string)
    ensures Wanted(ByName(filter), t) <==> filter == [] || exists f :: f in filter && f.name == t
    ensures Wanted(filter, t) ==> Wanted(ByName(filter), t)
  {
    if Bare(t) in ByName(filter) {
      var i :| 0 <= i < |filter| && ByName(filter)[i] == Bare(t);
      assert filter[i] in filter && filter[i].name == t;
    }
    if f :| f in filter && f.name == t {
      var i :| 0 <= i < |filter| && filter[i] == f;
      assert ByName(filter)[i] == Bare(t);
    }
  }

  /** The pending rows of the named tables are returned exactly when, for every table that is asked
      for by richer specs only, the rows a richer spec gives are the pending ones. */
  lemma PendingConfigExactly(filter: seq<TableSpec>, s: Store, v: Store, data: Config)
    requires Compact(v) && Tidy(data) && forall k :: RowAt(data, k) == RowFor(filter, s, v, k)
    ensures data == Snapshot(v, ByName(filter)) <==>
            forall k :: RowIsPending(filter, s, v, k)
  {
    var asked := Snapshot(v, ByName(filter));
    SnapshotRows(v, ByName(filter));
    forall k
      ensures RowAt(data, k) == RowAt(asked, k) <==> RowIsPending(filter, s, v, k)
    {
      RowForExactly(filter, s, v, k);
    }
    if forall k :: RowIsPending(filter, s, v, k) {
      assert forall k :: RowAt(data, k) == RowAt(asked, k);
      TidyExtensional(data, asked);
    }
  }

  ghost predicate RowIsPending(filter: seq<TableSpec>, s: Store, v: Store, k: string) {
    forall f :: f in filter && Bare(f.name) !in filter && Head(k) == f.name ==>
      HashAt(v, k) == if filter == [f] then HashAt(s, k) else map[]
  }

  lemma RowForExactly(filter: seq<TableSpec>, s: Store, v: Store, k: string)
    ensures RowFor(filter, s, v, k) == (if Wanted(ByName(filter), Head(k)) then HashAt(v, k) else map[])
            <==> RowIsPending(filter, s, v, k)
  {
    WantedByName(filter, Head(k));
  }

  /** A single table asked for with a spec that says more than its name gets a snapshot without
      the pending commands: that is right exactly when they have no net effect on its rows. */
  lemma RichSpecSeesPending(s: Store, v: Store, f: TableSpec)
    requires Compact(s) && Compact(v)
    ensures Snapshot(s, [f]) == Snapshot(v, [f]) <==> forall k :: Head(k) == f.name ==> HashAt(s, k) == HashAt(v, k)
  {
    SnapshotRows(s, [f]);
    SnapshotRows(v, [f]);
    assert forall k :: Wanted([f], Head(k)) <==> Head(k) == f.name;
    if Snapshot(s, [f]) == Snapshot(v, [f]) {
      forall k | Head(k) == f.name
        ensures HashAt(s, k) == HashAt(v, k)
      {
        assert RowAt(Snapshot(s, [f]), k) == HashAt(s, k);
      }
    }
    if forall k :: Head(k) == f.name ==> HashAt(s, k) == HashAt(v, k) {
      TidyExtensional(Snapshot(s, [f]), Snapshot(v, [f]));
    }
  }
}
