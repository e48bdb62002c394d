/** The Redis server as the DB layer sees it: hashes under string keys, the three
    write commands the DB layer queues, and the meaning of running a list of them. */
module Redis {
  import opened Glob

  type Hash = map<string, string>

  /** Redis never keeps an empty hash; see Compact. */
  type Store = map<string, Hash>

  datatype Command =
    | HMSet(key: string, fields: Hash)
    | HDel(key: string, names: set<string>)
    | Del(key: string)

  /** What c does to the hash stored under its own key. */
  function Effect(h: Hash, c: Command): Hash {
    match c
    case HMSet(_, fields) => h + fields
    case HDel(_, names) => h - names
    case Del(_) => map[]
  }

  /** HGETALL: an absent key reads as the empty hash. */
  function HashAt(s: Store, k: string): Hash {
    if k in s then s[k] else map[]
  }

  function Put(s: Store, k: string, h: Hash): Store {
    if h == map[] then s - {k} else s[k := h]
  }

  function Exec(s: Store, c: Command): Store {
    Put(s, c.key, Effect(HashAt(s, c.key), c))
  }

  /** Running cs in order. */
  function Replay(s: Store, cs: seq<Command>): Store
    decreases |cs|
  {
    if cs == [] then s else Exec(Replay(s, cs[..|cs| - 1]), cs[|cs| - 1])
  }

  /** The part of Replay that concerns one key, starting from that key's hash. */
  function ReplayAt(h: Hash, cs: seq<Command>, k: string): Hash
    decreases |cs|
  {
    if cs == [] then h
    else
      var before := ReplayAt(h, cs[..|cs| - 1], k);
      if cs[|cs| - 1].key == k then Effect(before, cs[|cs| - 1]) else before
  }

  predicate NoDuplicates<T(==)>(s: seq<T>) {
    forall i, j :: 0 <= i < j < |s| ==> s[i] != s[j]
  }

  ghost predicate Compact(s: Store) {
    forall k :: k in s ==> s[k] != map[]
  }

  ghost predicate Touched(cs: seq<Command>, k: string) {
    exists i :: 0 <= i < |cs| && cs[i].key == k
  }

  lemma ReplayLast(s: Store, cs: seq<Command>, c: Command)
    ensures Replay(s, cs + [c]) == Exec(Replay(s, cs), c)
  {
    assert (cs + [c])[..|cs|] == cs;
  }

  lemma ReplayAtLast(h: Hash, cs: seq<Command>, c: Command, k: string)
    ensures ReplayAt(h, cs + [c], k) ==
            if c.key == k then Effect(ReplayAt(h, cs, k), c) else ReplayAt(h, cs, k)
  {
    assert (cs + [c])[..|cs|] == cs;
  }

  lemma {:induction false} ReplayConcat(s: Store, cs: seq<Command>, ds: seq<Command>)
    ensures Replay(s, cs + ds) == Replay(Replay(s, cs), ds)
    decreases |ds|
  {
    if ds == [] {
      assert cs + ds == cs;
    } else {
      var init, last := ds[..|ds| - 1], ds[|ds| - 1];
      ReplayConcat(s, cs, init);
      ReplayLast(s, cs + init, last);
      assert cs + ds == (cs + init) + [last];
    }
  }

  /** Replaying whole lists acts on every key separately. */
  lemma {:induction false} ReplayPointwise(s: Store, cs: seq<Command>, k: string)
    ensures HashAt(Replay(s, cs), k) == ReplayAt(HashAt(s, k), cs, k)
    decreases |cs|
  {
    if cs != [] {
      ReplayPointwise(s, cs[..|cs| - 1], k);
    }
  }

  lemma {:induction false} ReplayCompact(s: Store, cs: seq<Command>)
    requires Compact(s)
    ensures Compact(Replay(s, cs))
    decreases |cs|
  {
    if cs != [] {
      ReplayCompact(s, cs[..|cs| - 1]);
    }
  }

  lemma {:induction false} ReplayUntouched(h: Hash, cs: seq<Command>, k: string)
    requires !Touched(cs, k)
    ensures ReplayAt(h, cs, k) == h
    decreases |cs|
  {
    if cs != [] {
      assert cs[|cs| - 1].key != k;
      assert forall i :: 0 <= i < |cs| - 1 ==> cs[..|cs| - 1][i] == cs[i];
      ReplayUntouched(h, cs[..|cs| - 1], k);
    }
  }

  /** A row that is missing at the start makes no difference to the others, and stays missing when no
      command touches it. */
  lemma ReplayWithout(s: Store, cs: seq<Command>, k: string, j: string)
    ensures j != k ==> HashAt(Replay(s - {k}, cs), j) == HashAt(Replay(s, cs), j)
    ensures j == k && !Touched(cs, k) ==> HashAt(Replay(s - {k}, cs), j) == map[]
  {
    ReplayPointwise(s, cs, j);
    ReplayPointwise(s - {k}, cs, j);
    if j == k && !Touched(cs, k) {
      ReplayUntouched(map[], cs, k);
    }
  }

  /** Two stores without empty hashes are equal when every key reads the same. */
  lemma CompactExtensional(s: Store, t: Store)
    requires Compact(s) && Compact(t)
    requires forall k :: HashAt(s, k) == HashAt(t, k)
    ensures s == t
  {
    forall k
      ensures k in s <==> k in t
      ensures k in s ==> s[k] == t[k]
    {
      assert HashAt(s, k) == HashAt(t, k);
    }
    assert s.Keys == t.Keys;
  }

  /** The server with one client connection. Unless the server is reliable, any command may fail on
      its own; a command that fails has had no effect. Between MULTI and EXEC commands queue, and
      a failure there ends the connection, so that the server forgets the queue. `watchBroken`
      belongs to the environment. */
  class Client {
    const reliable: bool
    var store: Store
    var inMulti: bool
    var queue: seq<Command>
    var updated: set<string>        // plain string keys written by SET
    var queuedUpdates: set<string>
    var watchBroken: bool

    constructor (s: Store, reliable: bool, watchBroken: bool)
      ensures store == s && !inMulti && queue == [] && updated == {} && queuedUpdates == {}
      ensures this.reliable == reliable && this.watchBroken == watchBroken
    {
      this.reliable, this.watchBroken := reliable, watchBroken;
      store, inMulti, queue, updated, queuedUpdates := s, false, [], {}, {};
    }

    /** Does the next command get through? */
    method Attempt() returns (ok: bool)
      ensures reliable ==> ok
    {
      ok :| reliable ==> ok;
    }

    method HGetAll(k: string) returns (h: Hash, ok: bool)
      ensures reliable ==> ok
      ensures h == if ok then HashAt(store, k) else map[]
    {
      ok := Attempt();
      h := if ok then HashAt(store, k) else map[];
    }

    /** KEYS: the stored keys a pattern matches, in no particular order. */
    method Keys(pattern: string) returns (ks: seq<string>, ok: bool)
      ensures reliable ==> ok
      ensures NoDuplicates(ks)
      ensures forall k :: k in ks <==> ok && k in store && Match(k, pattern)
    {
      ok := Attempt();
      ks := [];
      if ok {
        var rest := set k | k in store && Match(k, pattern);
        while rest != {}
          invariant NoDuplicates(ks)
          invariant forall k :: k in ks ==> k !in rest
          invariant forall k :: k in ks || k in rest <==> k in store && Match(k, pattern)
          decreases rest
        {
          var k :| k in rest;
          ks, rest := ks + [k], rest - {k};
        }
      }
    }

    /** WATCH, and UNWATCH for no keys at all. */
    method Watch(keys: set<string>) returns (ok: bool)
      ensures reliable ==> ok
    {
      ok := Attempt();
    }

    /** One write command outside MULTI. */
    method Do(c: Command) returns (ok: bool)
      requires !inMulti
      modifies this`store
      ensures reliable ==> ok
      ensures store == if ok then Exec(old(store), c) else old(store)
    {
      ok := Attempt();
      if ok {
        store := Exec(store, c);
      }
    }

    method Set(name: string) returns (ok: bool)
      requires !inMulti
      modifies this`updated
      ensures reliable ==> ok
      ensures updated == if ok then old(updated) + {name} else old(updated)
    {
      ok := Attempt();
      if ok {
        updated := updated + {name};
      }
    }

    method Multi() returns (ok: bool)
      requires !inMulti
      modifies this`inMulti, this`queue, this`queuedUpdates
      ensures reliable ==> ok
      ensures inMulti == ok && (ok ==> queue == [] && queuedUpdates == {})
    {
      ok := Attempt();
      if ok {
        inMulti, queue, queuedUpdates := true, [], {};
      }
    }

    /** One write command between MULTI and EXEC. */
    method Queue(c: Command) returns (ok: bool)
      requires inMulti
      modifies this`inMulti, this`queue
      ensures reliable ==> ok
      ensures inMulti == ok && (ok ==> queue == old(queue) + [c])
    {
      ok := Attempt();
      inMulti := ok;
      if ok {
        queue := queue + [c];
      }
    }

    method QueueSet(name: string) returns (ok: bool)
      requires inMulti
      modifies this`inMulti, this`queuedUpdates
      ensures reliable ==> ok
      ensures inMulti == ok && (ok ==> queuedUpdates == old(queuedUpdates) + {name})
    {
      ok := Attempt();
      inMulti := ok;
      if ok {
        queuedUpdates := queuedUpdates + {name};
      }
    }

    /** Runs the queued commands, unless a watched key changed. */
    method ExecQueue() returns (ok: bool)
      requires inMulti
      modifies this`inMulti, this`store, this`queue, this`updated, this`queuedUpdates
      ensures ok ==> !watchBroken
      ensures reliable ==> ok == !watchBroken
      ensures store == if ok then Replay(old(store), old(queue)) else old(store)
      ensures updated == if ok then old(updated) + old(queuedUpdates) else old(updated)
      ensures !inMulti
    {
      ok := Attempt();
      ok := ok && !watchBroken;
      if ok {
        store := Replay(store, queue);
        updated := updated + queuedUpdates;
      }
      inMulti, queue, queuedUpdates := false, [], {};
    }
  }
}
