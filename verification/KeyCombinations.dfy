/** The key-combination loop of generateYangListData (cvl/cvl_semantics.go) and of
    generateTableData (cvl/cvl_syntax.go): every tuple of key values, in lexicographic order. */
module KeyCombinations {

  /** How many combinations there are. */
  function Total(vs: seq<seq<string>>): nat {
    if vs == [] then 1 else |vs[0]| * Total(vs[1..])
  }

  function Prepend(v: string, tuples: seq<seq<string>>): (r: seq<seq<string>>)
    ensures |r| == |tuples| && forall i :: 0 <= i < |r| ==> r[i] == [v] + tuples[i]
  {
    seq(|tuples|, i requires 0 <= i < |tuples| => [v] + tuples[i])
  }

  function PrependEach(first: seq<string>, tuples: seq<seq<string>>): seq<seq<string>> {
    if first == [] then [] else Prepend(first[0], tuples) + PrependEach(first[1..], tuples)
  }

  /** The cartesian product of the key values, in lexicographic order. */
  function Product(vs: seq<seq<string>>): seq<seq<string>> {
    if vs == [] then [[]] else PrependEach(vs[0], Product(vs[1..]))
  }

  predicate InRange(vs: seq<seq<string>>, idx: seq<nat>) {
    |idx| == |vs| && forall i :: 0 <= i < |vs| ==> idx[i] < |vs[i]|
  }

  /** The mixed-radix value of the indices. */
  function Rank(vs: seq<seq<string>>, idx: seq<nat>): nat
    requires |idx| == |vs|
  {
    if vs == [] then 0 else idx[0] * Total(vs[1..]) + Rank(vs[1..], idx[1..])
  }

  function Tuple(vs: seq<seq<string>>, idx: seq<nat>): (t: seq<string>)
    requires InRange(vs, idx)
    ensures |t| == |vs| && forall i :: 0 <= i < |t| ==> t[i] == vs[i][idx[i]]
  {
    seq(|vs|, i requires 0 <= i < |vs| => vs[i][idx[i]])
  }

  lemma {:induction false} PrependEachAt(first: seq<string>, tuples: seq<seq<string>>, i: nat, j: nat)
    requires i < |first| && j < |tuples|
    ensures i * |tuples| + j < |PrependEach(first, tuples)| == |first| * |tuples|
    ensures PrependEach(first, tuples)[i * |tuples| + j] == [first[i]] + tuples[j]
    decreases |first|
  {
    PrependEachLength(first, tuples);
    RowOffset(|first|, |tuples|, i, j);
    if i > 0 {
      var n := (i - 1) * |tuples| + j;
      PrependEachAt(first[1..], tuples, i - 1, j);
      assert PrependEach(first, tuples)[|tuples| + n] == PrependEach(first[1..], tuples)[n];
    }
  }

  lemma RowOffset(m: nat, n: nat, i: nat, j: nat)
    requires i < m && j < n
    ensures i * n + j < m * n
    ensures i > 0 ==> i * n + j == n + ((i - 1) * n + j)
  {
    assert (i + 1) * n <= m * n;
  }

  lemma {:induction false} PrependEachLength(first: seq<string>, tuples: seq<seq<string>>)
    ensures |PrependEach(first, tuples)| == |first| * |tuples|
    decreases |first|
  {
    if first != [] {
      PrependEachLength(first[1..], tuples);
    }
  }

  lemma {:induction false} ProductLength(vs: seq<seq<string>>)
    ensures |Product(vs)| == Total(vs)
  {
    if vs != [] {
      ProductLength(vs[1..]);
      PrependEachLength(vs[0], Product(vs[1..]));
    }
  }

  /** The tuple at position Rank(idx) of the product is the one idx selects. */
  lemma {:induction false} ProductAtRank(vs: seq<seq<string>>, idx: seq<nat>)
    requires InRange(vs, idx)
    ensures Rank(vs, idx) < Total(vs) == |Product(vs)|
    ensures Product(vs)[Rank(vs, idx)] == Tuple(vs, idx)
  {
    ProductLength(vs);
    if vs == [] {
      assert Tuple(vs, idx) == [];
    } else {
      var rest, r := Product(vs[1..]), Rank(vs[1..], idx[1..]);
      ProductAtRank(vs[1..], idx[1..]);
      PrependEachAt(vs[0], rest, idx[0], r);
      assert Tuple(vs, idx) == [vs[0][idx[0]]] + Tuple(vs[1..], idx[1..]);
    }
  }

  function Zeros(n: nat): seq<nat> {
    seq(n, _ => 0)
  }

  lemma {:induction false} ZeroRank(vs: seq<seq<string>>)
    ensures Rank(vs, Zeros(|vs|)) == 0
  {
    if vs != [] {
      ZeroRank(vs[1..]);
      assert Zeros(|vs|)[1..] == Zeros(|vs[1..]|);
    }
  }

  predicate AllLast(vs: seq<seq<string>>, idx: seq<nat>, from: nat)
    requires |idx| == |vs|
  {
    forall i :: from <= i < |vs| ==> idx[i] + 1 == |vs[i]|
  }

  lemma {:induction false} LastRank(vs: seq<seq<string>>, idx: seq<nat>)
    requires InRange(vs, idx) && AllLast(vs, idx, 0)
    ensures Rank(vs, idx) + 1 == Total(vs)
  {
    if vs != [] {
      LastRank(vs[1..], idx[1..]);
      var t := Total(vs[1..]);
      assert idx[0] * t + t == (idx[0] + 1) * t;
    }
  }

  /** The successor: the last index that can still grow grows, those behind it start over. */
  function Bump(idx: seq<nat>, next: nat): (r: seq<nat>)
    requires next < |idx|
    ensures |r| == |idx|
  {
    idx[..next] + [idx[next] + 1] + Zeros(|idx| - next - 1)
  }

  lemma {:induction false} BumpRank(vs: seq<seq<string>>, idx: seq<nat>, next: nat)
    requires InRange(vs, idx) && next < |vs| && AllLast(vs, idx, next + 1)
    ensures Rank(vs, Bump(idx, next)) == Rank(vs, idx) + 1
    decreases |vs|
  {
    var t := Total(vs[1..]);
    if next == 0 {
      LastRank(vs[1..], idx[1..]);
      ZeroRank(vs[1..]);
      assert Bump(idx, 0)[1..] == Zeros(|vs[1..]|);
      assert (idx[0] + 1) * t == idx[0] * t + t;
    } else {
      BumpRank(vs[1..], idx[1..], next - 1);
      assert Bump(idx, next)[1..] == Bump(idx[1..], next - 1);
    }
  }

  // ----- the order and the contents of the product -----

  predicate LexLess(a: seq<nat>, b: seq<nat>)
    requires |a| == |b|
  {
    a != [] && (a[0] < b[0] || (a[0] == b[0] && LexLess(a[1..], b[1..])))
  }

  lemma DigitsDecide(a: nat, b: nat, t: nat, r: nat, q: nat)
    requires r < t && q < t
    ensures a < b ==> a * t + r < b * t + q
    ensures b < a ==> b * t + q < a * t + r
  {
    if a < b {
      assert (a + 1) * t <= b * t;
    } else if b < a {
      assert (b + 1) * t <= a * t;
    }
  }

  lemma {:induction false} RankIsLexicographic(vs: seq<seq<string>>, a: seq<nat>, b: seq<nat>)
    requires InRange(vs, a) && InRange(vs, b)
    ensures Rank(vs, a) < Rank(vs, b) <==> LexLess(a, b)
    ensures Rank(vs, a) == Rank(vs, b) <==> a == b
  {
    if vs != [] {
      RankIsLexicographic(vs[1..], a[1..], b[1..]);
      ProductAtRank(vs[1..], a[1..]);
      ProductAtRank(vs[1..], b[1..]);
      DigitsDecide(a[0], b[0], Total(vs[1..]), Rank(vs[1..], a[1..]), Rank(vs[1..], b[1..]));
      assert a == [a[0]] + a[1..] && b == [b[0]] + b[1..];
    }
  }

  /** The product holds exactly the tuples that take each component from its values. */
  lemma {:induction false} ProductContents(vs: seq<seq<string>>, t: seq<string>)
    ensures t in Product(vs) <==> |t| == |vs| && forall i :: 0 <= i < |vs| ==> t[i] in vs[i]
  {
    if vs != [] {
      PrependEachContents(vs[0], Product(vs[1..]), t);
      if t != [] {
        ProductContents(vs[1..], t[1..]);
        assert t == [t[0]] + t[1..];
        if t[0] in vs[0] && |t| == |vs| && forall i :: 0 <= i < |vs[1..]| ==> t[1..][i] in vs[1..][i] {
          forall i | 0 <= i < |vs|
            ensures t[i] in vs[i]
          {
            if i > 0 {
              assert t[1..][i - 1] in vs[1..][i - 1];
            }
          }
        }
      }
    } else {
      assert t in [[]] <==> t == [];
    }
  }

  lemma {:induction false} PrependEachContents(first: seq<string>, tuples: seq<seq<string>>, t: seq<string>)
    ensures t in PrependEach(first, tuples) <==> t != [] && t[0] in first && t[1..] in tuples
    decreases |first|
  {
    if first != [] {
      PrependEachContents(first[1..], tuples, t);
      var here := Prepend(first[0], tuples);
      if t in here {
        var i :| 0 <= i < |here| && here[i] == t;
        assert t[1..] == tuples[i];
      }
      if t != [] && t[0] == first[0] && t[1..] in tuples {
        var i :| 0 <= i < |tuples| && tuples[i] == t[1..];
        assert t == [t[0]] + t[1..];
        assert here[i] == t;
      }
    }
  }

  // ----- the loop -----

  /** One step of keyIndices, in place; past the last combination it may leave the range. */
  method Advance(vs: seq<seq<string>>, keyIndices: array<nat>)
    requires keyIndices.Length == |vs| > 0 && InRange(vs, keyIndices[..])
    modifies keyIndices
    ensures Rank(vs, keyIndices[..]) == old(Rank(vs, keyIndices[..])) + 1
    ensures old(Rank(vs, keyIndices[..])) + 1 < Total(vs) ==> InRange(vs, keyIndices[..])
  {
    ghost var idx := keyIndices[..];
    var next := |vs| - 1;
    while next > 0 && keyIndices[next] + 1 >= |vs[next]|
      invariant 0 <= next < |vs| && keyIndices[..] == idx && AllLast(vs, idx, next + 1)
    {
      next := next - 1;
    }
    BumpRank(vs, idx, next);
    keyIndices[next] := keyIndices[next] + 1;
    for i := next + 1 to |vs|
      invariant forall j :: 0 <= j < |vs| ==>
                  keyIndices[j] == (if next < j < i then 0 else if j == next then idx[j] + 1 else idx[j])
    {
      keyIndices[i] := 0;
    }
    assert keyIndices[..] == Bump(idx, next);
    if idx[next] + 1 >= |vs[next]| {
      LastRank(vs, idx);
    }
  }

  /** The number of combinations, and a zero index for each component. */
  method CountCombinations(vs: seq<seq<string>>) returns (totalKeyComb: nat, keyIndices: array<nat>)
    ensures totalKeyComb == Total(vs)
    ensures fresh(keyIndices) && keyIndices.Length == |vs| && Rank(vs, keyIndices[..]) == 0
    ensures totalKeyComb > 0 ==> InRange(vs, keyIndices[..])
  {
    totalKeyComb := 1;
    assert vs[0..] == vs;
    for i := 0 to |vs|
      invariant totalKeyComb * Total(vs[i..]) == Total(vs)
    {
      assert vs[i..][1..] == vs[i + 1..];
      Associate(totalKeyComb, |vs[i]|, Total(vs[i + 1..]));
      totalKeyComb := totalKeyComb * |vs[i]|;
    }
    keyIndices := new nat[|vs|](_ => 0);
    assert keyIndices[..] == Zeros(|vs|);
    ZeroRank(vs);
    NonEmptyValues(vs);
  }

  lemma Associate(a: nat, b: nat, c: nat)
    ensures a * (b * c) == (a * b) * c
  {
  }

  /** The whole loop: one list element for each combination. */
  method Enumerate(vs: seq<seq<string>>) returns (combos: seq<seq<string>>)
    ensures combos == Product(vs)
  {
    var totalKeyComb: nat, keyIndices := CountCombinations(vs);
    ProductLength(vs);
    combos := [];
    while totalKeyComb > 0
      invariant totalKeyComb + |combos| == Total(vs) == |Product(vs)|
      invariant combos == Product(vs)[..|combos|]
      invariant fresh(keyIndices) && keyIndices.Length == |vs|
      invariant totalKeyComb > 0 ==> InRange(vs, keyIndices[..]) && Rank(vs, keyIndices[..]) == |combos|
    {
      combos := AddCombination(vs, keyIndices, combos);
      if |vs| == 0 {
        assert Total(vs) == 1;
        break;
      }
      Advance(vs, keyIndices);
      totalKeyComb := totalKeyComb - 1;
    }
    assert Product(vs)[..|Product(vs)|] == Product(vs);
  }

  method AddCombination(vs: seq<seq<string>>, keyIndices: array<nat>, combos: seq<seq<string>>)
    returns (combos': seq<seq<string>>)
    requires keyIndices.Length == |vs| && InRange(vs, keyIndices[..]) && Rank(vs, keyIndices[..]) == |combos|
    requires |combos| < |Product(vs)| && combos == Product(vs)[..|combos|]
    ensures |combos'| == |combos| + 1 && combos' == Product(vs)[..|combos'|]
  {
    ProductAtRank(vs, keyIndices[..]);
    combos' := combos + [Tuple(vs, keyIndices[..])];
  }

  lemma {:induction false} NonEmptyValues(vs: seq<seq<string>>)
    ensures Total(vs) > 0 <==> forall i :: 0 <= i < |vs| ==> vs[i] != []
  {
    if vs != [] {
      NonEmptyValues(vs[1..]);
      if vs[0] != [] && Total(vs[1..]) > 0 {
        assert |vs[0]| * Total(vs[1..]) >= 1 * Total(vs[1..]);
        forall i | 0 <= i < |vs|
          ensures vs[i] != []
        {
          if i > 0 {
            assert vs[1..][i - 1] != [];
          }
        }
      }
      if forall i :: 0 <= i < |vs| ==> vs[i] != [] {
        assert forall i :: 0 <= i < |vs[1..]| ==> vs[1..][i] == vs[i + 1];
      }
    }
  }
}
