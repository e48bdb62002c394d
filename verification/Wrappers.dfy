/** Small general helpers. */
module Wrappers {
  datatype Option<+T> = None | Some(value: T)

  /** Applying f for each element of rs, in order. */
  function Fold<R, S>(f: (R, S) -> S, rs: seq<R>, s: S): S
    decreases |rs|
  {
    if rs == [] then s else f(rs[|rs| - 1], Fold(f, rs[..|rs| - 1], s))
  }

  lemma FoldLast<R, S>(f: (R, S) -> S, rs: seq<R>, r: R, s: S)
    ensures Fold(f, rs + [r], s) == f(r, Fold(f, rs, s))
  {
    assert (rs + [r])[..|rs|] == rs;
  }

  lemma {:induction false} FoldConcat<R, S>(f: (R, S) -> S, rs: seq<R>, qs: seq<R>, s: S)
    ensures Fold(f, rs + qs, s) == Fold(f, qs, Fold(f, rs, s))
    decreases |qs|
  {
    if qs == [] {
      assert rs + qs == rs;
    } else {
      var init, last := qs[..|qs| - 1], qs[|qs| - 1];
      FoldConcat(f, rs, init, s);
      FoldLast(f, rs + init, last, s);
      assert rs + qs == (rs + init) + [last];
    }
  }
}
