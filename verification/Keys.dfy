/** Table and key names: key2redis, redis2key and redis2ts_key of translib/db/db.go, over
    the separator of CONFIG_DB, which separates both the table name and the components. */
module Keys {

  const SEPARATOR: char := '|'

  datatype TableSpec = TableSpec(name: string, compCt: nat, noDelete: bool)

  datatype Key = Key(comp: seq<string>)

  /** strings.Join */
  function Join(comps: seq<string>): string {
    if |comps| == 0 then ""
    else if |comps| == 1 then comps[0]
    else comps[0] + [SEPARATOR] + Join(comps[1..])
  }

  /** The text before the first separator; all of s when there is none. */
  function Head(s: string): string {
    if s == "" || s[0] == SEPARATOR then "" else [s[0]] + Head(s[1..])
  }

  /** strings.SplitN(s, sep, n) for n > 0: at most n pieces, the last one unsplit. */
  function SplitN(s: string, n: nat): seq<string>
    requires n > 0
    decreases n
  {
    if n == 1 || SEPARATOR !in s then [s]
    else [Head(s)] + SplitN(Tail(s), n - 1)
  }

  /** strings.Split */
  function Split(s: string): seq<string>
    decreases |s|
  {
    if SEPARATOR !in s then [s]
    else
      HeadPrefix(s);
      [Head(s)] + Split(Tail(s))
  }

  /** The text after the first separator. */
  function Tail(s: string): string
    requires SEPARATOR in s
  {
    HeadPrefix(s);
    s[|Head(s)| + 1..]
  }

  lemma HeadPrefix(s: string)
    ensures |Head(s)| <= |s| && s[..|Head(s)|] == Head(s) && SEPARATOR !in Head(s)
    ensures SEPARATOR in s ==> |Head(s)| < |s| && s[|Head(s)|] == SEPARATOR
    ensures SEPARATOR !in s ==> Head(s) == s
  {
    if s != "" && s[0] != SEPARATOR {
      HeadPrefix(s[1..]);
      assert s == [s[0]] + s[1..];
    }
  }

  lemma HeadTail(s: string)
    requires SEPARATOR in s
    ensures s == Head(s) + [SEPARATOR] + Tail(s)
  {
    HeadPrefix(s);
  }

  lemma HeadOfConcat(a: string, b: string)
    requires SEPARATOR !in a
    ensures Head(a + [SEPARATOR] + b) == a && Tail(a + [SEPARATOR] + b) == b
    decreases |a|
  {
    var s := a + [SEPARATOR] + b;
    HeadPrefix(s);
    if a != "" {
      HeadOfConcat(a[1..], b);
      assert s[1..] == a[1..] + [SEPARATOR] + b;
    }
    assert s[|a|] == SEPARATOR;
    assert s[|a| + 1..] == b;
  }

  /** A name a table can have: the separator ends it. */
  predicate TableName(t: string) {
    SEPARATOR !in t
  }

  /** A key as the DB layer stores rows: table name, separator, and some key text. */
  predicate RowKey(k: string) {
    SEPARATOR in k && Tail(k) != ""
  }

  function Key2Redis(ts: TableSpec, key: Key): string {
    var fields := Join(key.comp);
    if fields != "" then ts.name + [SEPARATOR] + fields else ts.name
  }

  function Redis2Key(ts: TableSpec, redisKey: string): Key
    requires SEPARATOR in redisKey
  {
    if ts.compCt > 0 then Key(SplitN(Tail(redisKey), ts.compCt))
    else Key(Split(Tail(redisKey)))
  }

  function Redis2TsKey(redisKey: string): (TableSpec, Key)
    requires SEPARATOR in redisKey
  {
    (TableSpec(Head(redisKey), 0, false), Key(Split(Tail(redisKey))))
  }

  lemma {:induction false} JoinSplit(s: string)
    ensures Join(Split(s)) == s && |Split(s)| >= 1
    decreases |s|
  {
    if SEPARATOR in s {
      HeadTail(s);
      JoinSplit(Tail(s));
      assert Split(s)[1..] == Split(Tail(s));
    }
  }

  lemma {:induction false} JoinSplitN(s: string, n: nat)
    requires n > 0
    ensures Join(SplitN(s, n)) == s && 1 <= |SplitN(s, n)| <= n
    decreases n
  {
    if n > 1 && SEPARATOR in s {
      HeadTail(s);
      JoinSplitN(Tail(s), n - 1);
      assert SplitN(s, n)[1..] == SplitN(Tail(s), n - 1);
    }
  }

  /** The first component of a joined key is what precedes the first separator. */
  lemma JoinHead(comps: seq<string>)
    requires |comps| > 1 && SEPARATOR !in comps[0]
    ensures SEPARATOR in Join(comps)
    ensures Head(Join(comps)) == comps[0] && Tail(Join(comps)) == Join(comps[1..])
  {
    HeadOfConcat(comps[0], Join(comps[1..]));
    assert Join(comps)[|comps[0]|] == SEPARATOR;
  }

  lemma {:induction false} SplitNoSeparator(s: string)
    ensures forall i :: 0 <= i < |Split(s)| ==> SEPARATOR !in Split(s)[i]
    decreases |s|
  {
    if SEPARATOR in s {
      HeadPrefix(s);
      SplitNoSeparator(Tail(s));
    }
  }

  lemma {:induction false} SplitJoin(comps: seq<string>)
    ensures Split(Join(comps)) == comps <==>
            |comps| > 0 && forall i :: 0 <= i < |comps| ==> SEPARATOR !in comps[i]
  {
    SplitNoSeparator(Join(comps));
    if |comps| > 0 && forall i :: 0 <= i < |comps| ==> SEPARATOR !in comps[i] {
      SplitJoinPlain(comps);
    }
    JoinSplit(Join(comps));
  }

  lemma {:induction false} SplitJoinPlain(comps: seq<string>)
    requires |comps| > 0 && forall i :: 0 <= i < |comps| ==> SEPARATOR !in comps[i]
    ensures Split(Join(comps)) == comps
  {
    if |comps| > 1 {
      SplitJoinPlain(comps[1..]);
      JoinHead(comps);
    }
  }

  /** When does a key with a bounded number of components survive join and split? Only its
      n-th component may contain the separator, and there must be between 1 and n of them. */
  predicate Separable(comps: seq<string>, n: nat) {
    && 1 <= |comps| <= n
    && forall i :: 0 <= i < |comps| && i < n - 1 ==> SEPARATOR !in comps[i]
  }

  lemma SplitNJoin(comps: seq<string>, n: nat)
    requires n > 0
    ensures SplitN(Join(comps), n) == comps <==> Separable(comps, n)
  {
    SplitNSeparable(Join(comps), n);
    if Separable(comps, n) {
      SplitNJoinSeparable(comps, n);
    }
  }

  lemma {:induction false} SplitNJoinSeparable(comps: seq<string>, n: nat)
    requires n > 0 && Separable(comps, n)
    ensures SplitN(Join(comps), n) == comps
    decreases n
  {
    if n > 1 && |comps| > 1 {
      JoinHead(comps);
      SplitNJoinSeparable(comps[1..], n - 1);
      assert comps == [comps[0]] + comps[1..];
    }
  }

  lemma {:induction false} SplitNSeparable(s: string, n: nat)
    requires n > 0
    ensures Separable(SplitN(s, n), n)
    decreases n
  {
    if n > 1 && SEPARATOR in s {
      HeadPrefix(s);
      SplitNSeparable(Tail(s), n - 1);
      var rest := SplitN(Tail(s), n - 1);
      assert SplitN(s, n) == [Head(s)] + rest;
      forall i | 0 <= i < |rest| + 1 && i < n - 1
        ensures SEPARATOR !in ([Head(s)] + rest)[i]
      {
        if i > 0 {
          assert ([Head(s)] + rest)[i] == rest[i - 1];
        }
      }
    }
  }

  /** key2redis puts the table name in front, and the table is recovered from the key. */
  lemma TableOfKey(ts: TableSpec, key: Key)
    requires TableName(ts.name) && Join(key.comp) != ""
    ensures RowKey(Key2Redis(ts, key))
    ensures Head(Key2Redis(ts, key)) == ts.name && Tail(Key2Redis(ts, key)) == Join(key.comp)
  {
    HeadOfConcat(ts.name, Join(key.comp));
    assert Key2Redis(ts, key)[|ts.name|] == SEPARATOR;
  }

  /** Splitting a row key of the table and joining it again gives the same row key,
      whatever the number of components the table declares. */
  lemma RedisKeyRoundTrip(ts: TableSpec, k: string)
    requires RowKey(k) && Head(k) == ts.name
    ensures Key2Redis(ts, Redis2Key(ts, k)) == k
    ensures var (ts', key) := Redis2TsKey(k); ts'.name == ts.name && Key2Redis(ts', key) == k
  {
    HeadTail(k);
    JoinSplit(Tail(k));
    if ts.compCt > 0 {
      JoinSplitN(Tail(k), ts.compCt);
    }
  }

  /** The other direction holds exactly for keys whose components the table can tell apart. */
  lemma KeyRoundTrip(ts: TableSpec, key: Key)
    requires TableName(ts.name) && Join(key.comp) != ""
    ensures RowKey(Key2Redis(ts, key))
    ensures Redis2Key(ts, Key2Redis(ts, key)) == key <==>
            if ts.compCt > 0 then Separable(key.comp, ts.compCt)
            else |key.comp| > 0 && forall i :: 0 <= i < |key.comp| ==> SEPARATOR !in key.comp[i]
  {
    TableOfKey(ts, key);
    SplitJoin(key.comp);
    if ts.compCt > 0 {
      SplitNJoin(key.comp, ts.compCt);
    }
  }
}
