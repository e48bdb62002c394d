/** GetDepDataForDelete (cvl/cvl_api.go), key-based dependents: which rows must go before a row
    can be deleted, and why deleting them from the back of the list is safe. The direct
    dependents of a row are a fixed finite relation here. */
module CascadeDelete {
  import opened Keys

  /** The rows that refer to a row through one of their keys, in the order they are found. */
  type Referrers = map<string, seq<string>>

  function Direct(refs: Referrers, x: string): seq<string> {
    if x in refs then refs[x] else []
  }

  /** No row refers to itself, directly or through others. */
  ghost predicate Acyclic(refs: Referrers, rank: map<string, nat>) {
    && (forall x :: x in refs ==> x in rank)
    && forall x, i :: x in refs && 0 <= i < |refs[x]| ==> refs[x][i] in rank && rank[refs[x][i]] < rank[x]
  }

  ghost function Height(rank: map<string, nat>, x: string): nat {
    if x in rank then rank[x] else 0
  }

  /** The list: the direct dependents, then the list of each of them. */
  ghost function DepList(refs: Referrers, rank: map<string, nat>, x: string): seq<string>
    requires Acyclic(refs, rank)
    decreases Height(rank, x), 1, 0
  {
    Direct(refs, x) + DepLists(refs, rank, x, 0)
  }

  ghost function DepLists(refs: Referrers, rank: map<string, nat>, x: string, i: nat): seq<string>
    requires Acyclic(refs, rank) && i <= |Direct(refs, x)|
    decreases Height(rank, x), 0, |Direct(refs, x)| - i
  {
    if i == |Direct(refs, x)| then [] else DepList(refs, rank, Direct(refs, x)[i]) + DepLists(refs, rank, x, i + 1)
  }

  /** One dependent to delete, and the row on whose account. */
  datatype DepData = DepData(refKey: string, key: string)

  function KeysOf(ds: seq<DepData>): (ks: seq<string>)
    ensures |ks| == |ds|
  {
    seq(|ds|, i requires 0 <= i < |ds| => ds[i].key)
  }

  predicate OnAccountOf(refs: Referrers, ds: seq<DepData>) {
    forall i :: 0 <= i < |ds| ==> ds[i].key in Direct(refs, ds[i].refKey)
  }

  /** The direct dependents, as entries. */
  method DirectEntries(refs: Referrers, redisKey: string) returns (depEntries: seq<DepData>)
    ensures KeysOf(depEntries) == Direct(refs, redisKey) && OnAccountOf(refs, depEntries)
  {
    depEntries := [];
    var keysArr := Direct(refs, redisKey);
    for i := 0 to |keysArr|
      invariant |depEntries| == i
      invariant forall j :: 0 <= j < i ==> depEntries[j] == DepData(redisKey, keysArr[j])
    {
      depEntries := depEntries + [DepData(redisKey, keysArr[i])];
    }
  }

  lemma KeysOfConcat(ds: seq<DepData>, es: seq<DepData>)
    ensures KeysOf(ds + es) == KeysOf(ds) + KeysOf(es)
  {
  }

  lemma ConcatAssociates(a: seq<string>, b: seq<string>, c: seq<string>)
    ensures a + (b + c) == (a + b) + c
  {
  }

  /** The recursion. */
  method GetDepDataForDelete(refs: Referrers, redisKey: string, ghost rank: map<string, nat>)
    returns (depEntries: seq<DepData>)
    requires Acyclic(refs, rank)
    ensures KeysOf(depEntries) == DepList(refs, rank, redisKey) && OnAccountOf(refs, depEntries)
    decreases Height(rank, redisKey)
  {
    depEntries := DirectEntries(refs, redisKey);
    var keysArr := Direct(refs, redisKey);
    var i := 0;
    while i < |keysArr|
      invariant 0 <= i <= |keysArr| && OnAccountOf(refs, depEntries)
      invariant KeysOf(depEntries) + DepLists(refs, rank, redisKey, i) == DepList(refs, rank, redisKey)
    {
      var retDepEntries := GetDepDataForDelete(refs, keysArr[i], rank);
      KeysOfConcat(depEntries, retDepEntries);
      ConcatAssociates(KeysOf(depEntries), KeysOf(retDepEntries), DepLists(refs, rank, redisKey, i + 1));
      depEntries := depEntries + retDepEntries;
      i := i + 1;
    }
    assert KeysOf(depEntries) + [] == KeysOf(depEntries);
  }

  // ----- completeness -----

  /** p leads from x to y, each row referring to the one before it. */
  ghost predicate Chain(refs: Referrers, x: string, p: seq<string>, y: string)
    decreases |p|
  {
    if p == [] then x == y else p[0] in Direct(refs, x) && Chain(refs, p[0], p[1..], y)
  }

  /** The list holds exactly the transitive dependents. */
  lemma ListIsComplete(refs: Referrers, rank: map<string, nat>, x: string, y: string)
    requires Acyclic(refs, rank)
    ensures y in DepList(refs, rank, x) <==> exists p :: p != [] && Chain(refs, x, p, y)
  {
    if y in DepList(refs, rank, x) {
      var p := ListedHasChain(refs, rank, x, y);
    }
    if exists p :: p != [] && Chain(refs, x, p, y) {
      var p :| p != [] && Chain(refs, x, p, y);
      ChainIsListed(refs, rank, x, p, y);
      assert y in DepList(refs, rank, x);
    }
    assert y in DepList(refs, rank, x) ==> exists p :: p != [] && Chain(refs, x, p, y);
    assert (exists p :: p != [] && Chain(refs, x, p, y)) ==> y in DepList(refs, rank, x);
  }

  lemma {:induction false} ListedHasChain(refs: Referrers, rank: map<string, nat>, x: string, y: string)
    returns (p: seq<string>)
    requires Acyclic(refs, rank) && y in DepList(refs, rank, x)
    ensures p != [] && Chain(refs, x, p, y)
    decreases Height(rank, x)
  {
    var direct := Direct(refs, x);
    if y in direct {
      p := [y];
      assert Chain(refs, y, [], y);
    } else {
      ListsAreComplete(refs, rank, x, 0, y);
      var j :| 0 <= j < |direct| && y in DepList(refs, rank, direct[j]);
      var q := ListedHasChain(refs, rank, direct[j], y);
      p := [direct[j]] + q;
      assert p[1..] == q;
    }
  }

  lemma {:induction false} ChainIsListed(refs: Referrers, rank: map<string, nat>, x: string, p: seq<string>, y: string)
    requires Acyclic(refs, rank) && p != [] && Chain(refs, x, p, y)
    ensures y in DepList(refs, rank, x)
    decreases |p|
  {
    assert Chain(refs, p[0], p[1..], y);
    if |p| == 1 {
      assert p[1..] == [];
    } else {
      ChainIsListed(refs, rank, p[0], p[1..], y);
      ListsAreComplete(refs, rank, x, 0, y);
    }
  }

  /** y is in one of the lists of the direct dependents, from the i-th on. */
  ghost predicate InSomeList(refs: Referrers, rank: map<string, nat>, x: string, i: nat, y: string)
    requires Acyclic(refs, rank)
  {
    exists j :: i <= j < |Direct(refs, x)| && y in DepList(refs, rank, Direct(refs, x)[j])
  }

  lemma {:induction false} ListsAreComplete(refs: Referrers, rank: map<string, nat>, x: string, i: nat, y: string)
    requires Acyclic(refs, rank) && i <= |Direct(refs, x)|
    ensures y in DepLists(refs, rank, x, i) <==> InSomeList(refs, rank, x, i, y)
    decreases |Direct(refs, x)| - i
  {
    if i < |Direct(refs, x)| {
      ListsAreComplete(refs, rank, x, i + 1, y);
      var first, rest := DepList(refs, rank, Direct(refs, x)[i]), DepLists(refs, rank, x, i + 1);
      assert y in first + rest <==> y in first || y in rest;
      assert InSomeList(refs, rank, x, i, y) <==> y in first || InSomeList(refs, rank, x, i + 1, y);
    }
  }

  // ----- order -----

  /** Every occurrence of a row is followed by all rows that refer to it directly. */
  ghost predicate ReferrersFollow(refs: Referrers, list: seq<string>) {
    forall i, y :: 0 <= i < |list| && y in Direct(refs, list[i]) ==> y in list[i + 1..]
  }

  lemma {:induction false} ListIsOrdered(refs: Referrers, rank: map<string, nat>, x: string)
    requires Acyclic(refs, rank)
    ensures ReferrersFollow(refs, DepList(refs, rank, x))
    decreases Height(rank, x), 1, 0
  {
    var direct, rest := Direct(refs, x), DepLists(refs, rank, x, 0);
    ListsAreOrdered(refs, rank, x, 0);
    var list := direct + rest;
    forall i, y | 0 <= i < |list| && y in Direct(refs, list[i])
      ensures y in list[i + 1..]
    {
      if i < |direct| {
        DirectIncluded(refs, rank, x, 0, i, y);
        assert list[i + 1..] == direct[i + 1..] + rest;
      } else {
        assert list[i + 1..] == rest[i - |direct| + 1..];
      }
    }
  }

  lemma {:induction false} ListsAreOrdered(refs: Referrers, rank: map<string, nat>, x: string, i: nat)
    requires Acyclic(refs, rank) && i <= |Direct(refs, x)|
    ensures ReferrersFollow(refs, DepLists(refs, rank, x, i))
    decreases Height(rank, x), 0, |Direct(refs, x)| - i
  {
    if i < |Direct(refs, x)| {
      var first, rest := DepList(refs, rank, Direct(refs, x)[i]), DepLists(refs, rank, x, i + 1);
      ListIsOrdered(refs, rank, Direct(refs, x)[i]);
      ListsAreOrdered(refs, rank, x, i + 1);
      var list := first + rest;
      forall k, y | 0 <= k < |list| && y in Direct(refs, list[k])
        ensures y in list[k + 1..]
      {
        if k < |first| {
          assert list[k + 1..] == first[k + 1..] + rest;
        } else {
          assert list[k + 1..] == rest[k - |first| + 1..];
        }
      }
    }
  }

  /** The dependents of the j-th direct dependent come in its own list. */
  lemma {:induction false} DirectIncluded(refs: Referrers, rank: map<string, nat>, x: string, i: nat, j: nat, y: string)
    requires Acyclic(refs, rank) && i <= j < |Direct(refs, x)| && y in Direct(refs, Direct(refs, x)[j])
    ensures y in DepLists(refs, rank, x, i)
    decreases j - i
  {
    if i == j {
      assert y in DepList(refs, rank, Direct(refs, x)[i]);
    } else {
      DirectIncluded(refs, rank, x, i + 1, j, y);
    }
  }

  // ----- deleting from the back -----

  /** The callers delete rows of certain tables only. */
  predicate Deletable(tables: set<string>, row: string) {
    SEPARATOR in row && Head(row) in tables
  }

  /** None of the deleted rows is still referred to. */
  ghost predicate NoDangling(refs: Referrers, left: set<string>, deleted: set<string>) {
    forall x, y :: x in deleted && y in Direct(refs, x) ==> y !in left
  }

  /** None is still referred to by a row that may be deleted. */
  ghost predicate NoneForgotten(refs: Referrers, tables: set<string>, left: set<string>, deleted: set<string>) {
    forall x, y :: x in deleted && y in Direct(refs, x) && Deletable(tables, y) ==> y !in left
  }

  /** No row that refers to a deleted one is out of the caller's reach. */
  ghost predicate AllInReach(refs: Referrers, tables: set<string>, existing: set<string>, deleted: set<string>) {
    forall x, y :: x in deleted && y in Direct(refs, x) && y in existing ==> Deletable(tables, y)
  }

  /** Only listed rows that may be deleted are gone. */
  ghost predicate OnlyListed(list: seq<string>, tables: set<string>, existing: set<string>, left: set<string>) {
    left <= existing && forall x :: x in existing - left ==> x in list && Deletable(tables, x)
  }

  /** A state on the way: no reference is forgotten, and none dangles at all exactly when every row
      that refers to a deleted one is in the caller's reach. */
  ghost predicate Orderly(refs: Referrers, list: seq<string>, tables: set<string>,
                          existing: set<string>, left: set<string>) {
    && OnlyListed(list, tables, existing, left)
    && NoneForgotten(refs, tables, left, existing - left)
    && (NoDangling(refs, left, existing - left) <==> AllInReach(refs, tables, existing, existing - left))
  }

  ghost predicate AllOrderly(refs: Referrers, list: seq<string>, tables: set<string>, existing: set<string>,
                             states: seq<set<string>>) {
    forall i :: 0 <= i < |states| ==> Orderly(refs, list, tables, existing, states[i])
  }

  lemma OneMoreOrderly(refs: Referrers, list: seq<string>, tables: set<string>, existing: set<string>,
                       states: seq<set<string>>, left: set<string>)
    requires AllOrderly(refs, list, tables, existing, states) && Orderly(refs, list, tables, existing, left)
    ensures AllOrderly(refs, list, tables, existing, states + [left])
  {
  }

  /** The callers' loop: from the last listed row to the first, each row of the given tables is
      deleted, until a deletion fails. */
  method DeleteFromBack(refs: Referrers, tables: set<string>, existing: set<string>, depList: seq<DepData>,
                        noFailure: bool)
    returns (left: set<string>, ok: bool, ghost states: seq<set<string>>)
    requires ReferrersFollow(refs, KeysOf(depList))
    ensures noFailure ==> ok
    ensures AllOrderly(refs, KeysOf(depList), tables, existing, states)
    ensures states != [] && states[|states| - 1] == left
    ensures ok ==> left == existing - Rows(KeysOf(depList), tables)
  {
    ghost var list := KeysOf(depList);
    left, ok, states := existing, true, [existing];
    NothingDeleted(refs, list, tables, existing);
    var idx := |depList|;
    while idx > 0
      invariant 0 <= idx <= |list| && ok && left == existing - Rows(list[idx..], tables)
      invariant AllOrderly(refs, list, tables, existing, states)
      invariant states != [] && states[|states| - 1] == left
    {
      idx := idx - 1;
      var row := depList[idx].key;
      RowsNext(list, tables, idx);
      if Deletable(tables, row) {
        ok :| noFailure ==> ok;
        if !ok {
          return;
        }
        left := left - {row};
      }
      SuffixIsOrderly(refs, list, tables, existing, idx, left);
      OneMoreOrderly(refs, list, tables, existing, states, left);
      states := states + [left];
    }
    assert list[0..] == list;
  }

  /** Deleting what depends on a row, as its callers do. The row itself is not touched. */
  method DeleteDependents(refs: Referrers, tables: set<string>, existing: set<string>, redisKey: string,
                          noFailure: bool, ghost rank: map<string, nat>)
    returns (left: set<string>, ok: bool, ghost states: seq<set<string>>)
    requires Acyclic(refs, rank)
    ensures noFailure ==> ok
    ensures AllOrderly(refs, DepList(refs, rank, redisKey), tables, existing, states)
    ensures states != [] && states[|states| - 1] == left
    ensures ok ==> left == existing - Rows(DepList(refs, rank, redisKey), tables)
    ensures ok ==> forall y :: y in Direct(refs, redisKey) && Deletable(tables, y) ==> y !in left
  {
    var depList := GetDepDataForDelete(refs, redisKey, rank);
    ListIsOrdered(refs, rank, redisKey);
    DirectDependentsListed(refs, rank, redisKey);
    left, ok, states := DeleteFromBack(refs, tables, existing, depList, noFailure);
  }

  lemma NothingDeleted(refs: Referrers, list: seq<string>, tables: set<string>, existing: set<string>)
    ensures Orderly(refs, list, tables, existing, existing)
  {
    assert existing - existing == {};
  }

  function Rows(list: seq<string>, tables: set<string>): set<string> {
    set y | y in list && Deletable(tables, y)
  }

  lemma RowsNext(list: seq<string>, tables: set<string>, idx: nat)
    requires idx < |list|
    ensures Rows(list[idx..], tables) ==
            Rows(list[idx + 1..], tables) + if Deletable(tables, list[idx]) then {list[idx]} else {}
  {
    assert list[idx..] == [list[idx]] + list[idx + 1..];
  }

  lemma SuffixIsOrderly(refs: Referrers, list: seq<string>, tables: set<string>, existing: set<string>, idx: nat,
                        left: set<string>)
    requires ReferrersFollow(refs, list) && idx <= |list| && left == existing - Rows(list[idx..], tables)
    ensures Orderly(refs, list, tables, existing, left)
  {
    SuffixIsClosed(refs, list, idx);
    forall x | x in existing - left
      ensures x in list && Deletable(tables, x)
    {
      assert x in list[idx..];
    }
    if AllInReach(refs, tables, existing, existing - left) {
      assert NoDangling(refs, left, existing - left);
    }
  }

  /** With a dependent out of reach, a reference does dangle: b refers to a, which refers to p, and
      only a may be deleted. */
  lemma OutOfReach(p: string, a: string, b: string, tables: set<string>)
    requires p != a && a != b && p != b && Deletable(tables, a) && !Deletable(tables, b)
    ensures var refs: Referrers := map[p := [a], a := [b]];
            var rank := map[p := 2, a := 1, b := 0];
            && Acyclic(refs, rank) && DepList(refs, rank, p) == [a, b]
            && {p, a, b} - Rows([a, b], tables) == {p, b}
            && !NoDangling(refs, {p, b}, {a})
  {
    var refs: Referrers := map[p := [a], a := [b]];
    var rank := map[p := 2, a := 1, b := 0];
    assert DepLists(refs, rank, b, 0) == [];
    assert DepList(refs, rank, b) == [];
    assert DepLists(refs, rank, a, 0) == DepList(refs, rank, b) + DepLists(refs, rank, a, 1) == [];
    assert DepList(refs, rank, a) == [b];
    assert DepLists(refs, rank, p, 0) == DepList(refs, rank, a) + DepLists(refs, rank, p, 1) == [b];
    assert Rows([a, b], tables) == {a};
    assert [b][0] == b && b in Direct(refs, a);
  }

  /** The rows of a suffix are only referred to by rows of the suffix. */
  lemma SuffixIsClosed(refs: Referrers, list: seq<string>, idx: nat)
    requires ReferrersFollow(refs, list) && idx <= |list|
    ensures forall x, y :: x in list[idx..] && y in Direct(refs, x) ==> y in list[idx..]
  {
    forall x, y | x in list[idx..] && y in Direct(refs, x)
      ensures y in list[idx..]
    {
      var i :| 0 <= i < |list[idx..]| && list[idx..][i] == x;
      assert list[idx + i] == x;
      var j :| 0 <= j < |list[idx + i + 1..]| && list[idx + i + 1..][j] == y;
      assert list[idx..][i + 1 + j] == y;
    }
  }

  lemma DirectDependentsListed(refs: Referrers, rank: map<string, nat>, x: string)
    requires Acyclic(refs, rank)
    ensures forall y :: y in Direct(refs, x) ==> y in DepList(refs, rank, x)
  {
  }
}
