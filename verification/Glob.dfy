/** Glob patterns: the matcher of translib/db/db_key.go (copied in cvl/common/db_utils.go)
    against a declarative meaning, and what joining components does to a pattern. */
module Glob {
  import opened Keys

  datatype Token = Lit(c: char) | One | Star

  /** How a pattern reads: backslash takes the next character literally, and stands for
      itself at the very end. */
  function Tokens(p: string): (ts: seq<Token>)
    ensures p != "" ==> ts != []
    decreases |p|
  {
    if p == "" then []
    else if p[0] == '*' then [Star] + Tokens(p[1..])
    else if p[0] == '?' then [One] + Tokens(p[1..])
    else if p[0] == '\\' && |p| > 1 then [Lit(p[1])] + Tokens(p[2..])
    else [Lit(p[0])] + Tokens(p[1..])
  }

  predicate Matching(v: string, ts: seq<Token>)
    decreases |ts|
  {
    if ts == [] then v == ""
    else match ts[0]
      case Lit(c) => v != "" && v[0] == c && Matching(v[1..], ts[1..])
      case One => v != "" && Matching(v[1..], ts[1..])
      case Star => exists i :: 0 <= i <= |v| && Matching(v[i..], ts[1..])
  }

  /** v matches the pattern p. */
  predicate Match(v: string, p: string) {
    Matching(v, Tokens(p))
  }

  // ----- the declarative meaning -----

  predicate Fits(piece: string, t: Token) {
    match t
    case Lit(c) => piece == [c]
    case One => |piece| == 1
    case Star => true
  }

  function Flatten(pieces: seq<string>): string {
    if pieces == [] then "" else pieces[0] + Flatten(pieces[1..])
  }

  /** v is cut into consecutive pieces, one for each token. */
  ghost predicate Alignment(v: string, ts: seq<Token>, pieces: seq<string>) {
    && |pieces| == |ts|
    && Flatten(pieces) == v
    && forall i :: 0 <= i < |ts| ==> Fits(pieces[i], ts[i])
  }

  lemma {:induction false} MatchingIsAlignment(v: string, ts: seq<Token>)
    ensures Matching(v, ts) <==> exists pieces :: Alignment(v, ts, pieces)
    decreases |ts|
  {
    if Matching(v, ts) {
      var pieces := Align(v, ts);
    }
    if exists pieces :: Alignment(v, ts, pieces) {
      var pieces :| Alignment(v, ts, pieces);
      AlignedMatches(v, ts, pieces);
    }
  }

  lemma {:induction false} Align(v: string, ts: seq<Token>) returns (pieces: seq<string>)
    requires Matching(v, ts)
    ensures Alignment(v, ts, pieces)
    decreases |ts|
  {
    if ts == [] {
      pieces := [];
    } else {
      var n := if ts[0].Star? then var i :| 0 <= i <= |v| && Matching(v[i..], ts[1..]); i else 1;
      var rest := Align(v[n..], ts[1..]);
      pieces := [v[..n]] + rest;
      assert pieces[1..] == rest;
    }
  }

  lemma {:induction false} AlignedMatches(v: string, ts: seq<Token>, pieces: seq<string>)
    requires Alignment(v, ts, pieces)
    ensures Matching(v, ts)
    decreases |ts|
  {
    if ts != [] {
      var n := |pieces[0]|;
      assert Fits(pieces[0], ts[0]);
      assert v[n..] == Flatten(pieces[1..]);
      AlignedMatches(v[n..], ts[1..], pieces[1..]);
      if ts[0].Star? {
        assert 0 <= n <= |v| && Matching(v[n..], ts[1..]);
      }
    }
  }

  // ----- the matcher -----

  lemma EmptyNeedsStar(ts: seq<Token>)
    requires ts != [] && !ts[0].Star?
    ensures !Matching("", ts)
  {
  }

  lemma StarTwice(v: string, ts: seq<Token>)
    ensures Matching(v, [Star, Star] + ts) <==> Matching(v, [Star] + ts)
  {
    assert ([Star, Star] + ts)[1..] == [Star] + ts;
    assert ([Star] + ts)[1..] == ts;
    if Matching(v, [Star, Star] + ts) {
      var i :| 0 <= i <= |v| && Matching(v[i..], [Star] + ts);
      var j :| 0 <= j <= |v[i..]| && Matching(v[i..][j..], ts);
      assert v[i..][j..] == v[i + j..];
    }
    if Matching(v, [Star] + ts) {
      assert v[0..] == v;
    }
  }

  /** What the rest of the pattern from index p decides about the rest of the value from v. */
  predicate Rest(value: string, v: nat, pattern: string, p: nat)
    requires v <= |value| && p <= |pattern|
  {
    Matching(value[v..], Tokens(pattern[p..]))
  }

  lemma RestStep(value: string, v: nat, pattern: string, p: nat)
    requires v <= |value| && p < |pattern|
    ensures pattern[p] == '?' ==>
              (Rest(value, v, pattern, p) <==> v < |value| && Rest(value, v + 1, pattern, p + 1))
    ensures pattern[p] == '\\' && p + 1 < |pattern| ==>
              (Rest(value, v, pattern, p) <==>
               v < |value| && value[v] == pattern[p + 1] && Rest(value, v + 1, pattern, p + 2))
    ensures pattern[p] != '?' && pattern[p] != '*' && !(pattern[p] == '\\' && p + 1 < |pattern|) ==>
              (Rest(value, v, pattern, p) <==>
               v < |value| && value[v] == pattern[p] && Rest(value, v + 1, pattern, p + 1))
  {
    var rest := pattern[p..];
    assert rest[1..] == pattern[p + 1..];
    if p + 1 < |pattern| {
      assert rest[2..] == pattern[p + 2..];
    }
    if v < |value| {
      assert value[v..][1..] == value[v + 1..];
    }
    var ts := Tokens(rest);
    assert ts[1..] == if rest[0] == '\\' && |rest| > 1 then Tokens(rest[2..]) else Tokens(rest[1..]);
  }

  lemma RestStars(value: string, v: nat, pattern: string, p: nat)
    requires v <= |value| && p + 1 < |pattern| && pattern[p] == '*' && pattern[p + 1] == '*'
    ensures Rest(value, v, pattern, p) <==> Rest(value, v, pattern, p + 1)
  {
    assert pattern[p..][1..] == pattern[p + 1..] && pattern[p + 1..][1..] == pattern[p + 2..];
    var ts := Tokens(pattern[p + 2..]);
    StarTwice(value[v..], ts);
    assert [Star] + ([Star] + ts) == [Star, Star] + ts;
  }

  /** Once the stars are skipped, the pattern either ends, and anything matches, or it goes
      on with a token that needs a character, so the empty suffix need not be tried. */
  lemma RestAfterStars(value: string, v: nat, pattern: string, p: nat)
    requires v <= |value| && 0 < p <= |pattern| && pattern[p - 1] == '*'
    requires p < |pattern| ==> pattern[p] != '*'
    ensures p == |pattern| ==> Rest(value, v, pattern, p - 1)
    ensures p < |pattern| ==>
              (Rest(value, v, pattern, p - 1) <==> exists i :: v <= i < |value| && Rest(value, i, pattern, p))
  {
    assert pattern[p - 1..][1..] == pattern[p..];
    var ts := Tokens(pattern[p..]);
    assert ([Star] + ts)[1..] == ts;
    if p == |pattern| {
      assert value[v..][|value| - v..] == "";
    } else {
      EmptyNeedsStar(ts);
      if Rest(value, v, pattern, p - 1) {
        var i :| 0 <= i <= |value[v..]| && Matching(value[v..][i..], ts);
        assert value[v..][i..] == value[v + i..];
        assert value[|value|..] == "";
        assert v <= v + i < |value| && Rest(value, v + i, pattern, p);
      }
      if i :| v <= i < |value| && Rest(value, i, pattern, p) {
        assert value[v..][i - v..] == value[i..];
      }
    }
  }

  /** patternMatch. After a star, the suffixes tried stop short of the empty one. */
  method PatternMatch(value: string, vIndex: nat, pattern: string, pIndex: nat) returns (r: bool)
    requires vIndex <= |value| && pIndex <= |pattern|
    ensures r <==> Rest(value, vIndex, pattern, pIndex)
    decreases |pattern| - pIndex, 1
  {
    var v, p := vIndex, pIndex;
    while p < |pattern|
      invariant vIndex <= v <= |value| && pIndex <= p <= |pattern|
      invariant Rest(value, v, pattern, p) <==> Rest(value, vIndex, pattern, pIndex)
      decreases |pattern| - p
    {
      if pattern[p] == '*' {
        r := AfterStar(value, v, pattern, p);
        return;
      }
      RestStep(value, v, pattern, p);
      if pattern[p] == '?' {
        if v >= |value| {
          return false;
        }
      } else {
        if pattern[p] == '\\' && p + 1 < |pattern| {
          p := p + 1;
        }
        if v >= |value| || pattern[p] != value[v] {
          return false;
        }
      }
      v, p := v + 1, p + 1;
    }
    RestEnd(value, v, pattern, p);
    return v == |value|;
  }

  /** The star case of patternMatch. */
  method AfterStar(value: string, vIndex: nat, pattern: string, pIndex: nat) returns (r: bool)
    requires vIndex <= |value| && pIndex < |pattern| && pattern[pIndex] == '*'
    ensures r <==> Rest(value, vIndex, pattern, pIndex)
    decreases |pattern| - pIndex, 0
  {
    var p := pIndex + 1;
    while p < |pattern| && pattern[p] == '*'
      invariant pIndex < p <= |pattern| && pattern[p - 1] == '*'
      invariant Rest(value, vIndex, pattern, p - 1) <==> Rest(value, vIndex, pattern, pIndex)
    {
      RestStars(value, vIndex, pattern, p - 1);
      p := p + 1;
    }
    RestAfterStars(value, vIndex, pattern, p);
    if p == |pattern| {
      return true;
    }
    var v := vIndex;
    while v < |value|
      invariant vIndex <= v <= |value|
      invariant forall i :: vIndex <= i < v ==> !Rest(value, i, pattern, p)
    {
      r := PatternMatch(value, v, pattern, p);
      if r {
        return;
      }
      v := v + 1;
    }
    return false;
  }

  lemma RestEnd(value: string, v: nat, pattern: string, p: nat)
    requires v <= |value| && p == |pattern|
    ensures Rest(value, v, pattern, p) <==> v == |value|
  {
    assert pattern[p..] == "";
  }

  /** KeyMatch, the validator's copy of the matcher. */
  method KeyMatch(value: string, pattern: string) returns (r: bool)
    ensures r <==> Match(value, pattern)
  {
    r := PatternMatch(value, 0, pattern, 0);
    assert value[0..] == value && pattern[0..] == pattern;
  }

  // ----- keys -----

  predicate KeyMatches(k: Key, pat: Key) {
    && |k.comp| == |pat.comp|
    && forall i :: 0 <= i < |k.comp| ==> Match(k.comp[i], pat.comp[i])
  }

  lemma StarMatchesAll(v: string)
    ensures Match(v, "*")
  {
    assert Tokens("*")[1..] == Tokens(""[..]) == [];
    assert v[|v|..] == "";
    assert Matching(v[|v|..], Tokens("*")[1..]);
  }

  /** Key.Matches */
  method Matches(k: Key, pat: Key) returns (r: bool)
    ensures r <==> KeyMatches(k, pat)
  {
    if |k.comp| != |pat.comp| {
      return false;
    }
    for i := 0 to |k.comp|
      invariant forall j :: 0 <= j < i ==> Match(k.comp[j], pat.comp[j])
    {
      if pat.comp[i] == "*" {
        StarMatchesAll(k.comp[i]);
        continue;
      }
      var m := KeyMatch(k.comp[i], pat.comp[i]);
      if !m {
        return false;
      }
    }
    return true;
  }

  // ----- keys that are no patterns -----

  predicate Wild(ts: seq<Token>) {
    exists i :: 0 <= i < |ts| && !ts[i].Lit?
  }

  lemma WildStep(p: string)
    requires p != ""
    ensures var (t, n) := FirstToken(p); Wild(Tokens(p)) <==> !t.Lit? || Wild(Tokens(p[n..]))
  {
    var (t, n) := FirstToken(p);
    var ts, us := Tokens(p), Tokens(p[n..]);
    assert forall i :: 0 <= i < |us| ==> us[i] == ts[i + 1];
    assert ts[0] == t;
  }

  /** Key.IsPattern: does some component hold a wildcard that is not escaped? */
  method IsPattern(k: Key) returns (r: bool)
    ensures r <==> exists i :: 0 <= i < |k.comp| && Wild(Tokens(k.comp[i]))
  {
    for j := 0 to |k.comp|
      invariant forall i :: 0 <= i < j ==> !Wild(Tokens(k.comp[i]))
    {
      var s := k.comp[j];
      var i := 0;
      assert s[0..] == s;
      while i < |s|
        invariant i <= |s| + 1
        invariant Wild(Tokens(s)) <==> i < |s| && Wild(Tokens(s[i..]))
      {
        WildStep(s[i..]);
        if s[i] == '\\' {
          assert i + 2 <= |s| ==> s[i..][2..] == s[i + 2..];
          i := i + 1;
        } else if s[i] == '*' || s[i] == '?' {
          return true;
        } else {
          assert s[i..][1..] == s[i + 1..];
        }
        i := i + 1;
      }
    }
    return false;
  }

  /** The text that the literal tokens spell. */
  function Text(ts: seq<Token>): string {
    if ts == [] then "" else (if ts[0].Lit? then [ts[0].c] else "") + Text(ts[1..])
  }

  /** A pattern without wildcards matches one string only, itself without the escapes. */
  lemma {:induction false} PlainMatchesItself(v: string, ts: seq<Token>)
    requires !Wild(ts)
    ensures Matching(v, ts) <==> v == Text(ts)
    decreases |ts|
  {
    if ts != [] {
      assert ts[0].Lit?;
      assert !Wild(ts[1..]) by {
        assert forall i :: 0 <= i < |ts[1..]| ==> ts[1..][i] == ts[i + 1];
      }
      if v != "" {
        PlainMatchesItself(v[1..], ts[1..]);
        assert v == [v[0]] + v[1..];
      }
    }
  }

  // ----- concatenation -----

  lemma {:induction false} ConcatMatches(v: string, ts: seq<Token>, w: string, us: seq<Token>)
    requires Matching(v, ts) && Matching(w, us)
    ensures Matching(v + w, ts + us)
    decreases |ts|
  {
    if ts == [] {
      assert v + w == w && ts + us == us;
    } else {
      assert (ts + us)[1..] == ts[1..] + us;
      if ts[0].Star? {
        var i :| 0 <= i <= |v| && Matching(v[i..], ts[1..]);
        ConcatMatches(v[i..], ts[1..], w, us);
        assert (v + w)[i..] == v[i..] + w;
      } else {
        ConcatMatches(v[1..], ts[1..], w, us);
        assert (v + w)[1..] == v[1..] + w;
      }
    }
  }

  /** The pattern ends in a backslash that escapes nothing. */
  predicate Dangles(p: string)
    decreases |p|
  {
    p != "" && if p[0] == '\\' then |p| == 1 || Dangles(p[2..]) else Dangles(p[1..])
  }

  /** Appending c and more text to a pattern: a dangling backslash swallows c. */
  lemma TokensConcat(p: string, c: char, q: string)
    requires c != '*' && c != '?' && c != '\\'
    ensures !Dangles(p) ==> Tokens(p + [c] + q) == Tokens(p) + [Lit(c)] + Tokens(q)
    ensures Dangles(p) ==>
              Tokens(p) != [] && Tokens(p + [c] + q) == Tokens(p)[..|Tokens(p)| - 1] + [Lit(c)] + Tokens(q)
  {
    if Dangles(p) {
      var ts := TokensAfterBackslash(p, c, q);
      assert Tokens(p)[..|Tokens(p)| - 1] == ts;
    } else {
      TokensAfterPlain(p, c, q);
    }
  }

  /** The token a pattern starts with, and how many characters it takes. */
  function FirstToken(p: string): (r: (Token, nat))
    requires p != ""
    ensures 1 <= r.1 <= |p| && Tokens(p) == [r.0] + Tokens(p[r.1..])
  {
    if p[0] == '*' then (Star, 1)
    else if p[0] == '?' then (One, 1)
    else if p[0] == '\\' && |p| > 1 then (Lit(p[1]), 2)
    else (Lit(p[0]), 1)
  }

  lemma FirstTokenKept(p: string, c: char, q: string)
    requires p != "" && p != "\\"
    ensures var (t, n) := FirstToken(p); Tokens(p + [c] + q) == [t] + Tokens(p[n..] + [c] + q)
  {
    var s := p + [c] + q;
    var (t, n) := FirstToken(p);
    assert FirstToken(s) == (t, n);
    assert s[n..] == p[n..] + [c] + q;
  }

  lemma {:induction false} TokensAfterPlain(p: string, c: char, q: string)
    requires c != '*' && c != '?' && c != '\\' && !Dangles(p)
    ensures Tokens(p + [c] + q) == Tokens(p) + [Lit(c)] + Tokens(q)
    decreases |p|
  {
    if p == "" {
      assert (p + [c] + q)[1..] == q;
    } else {
      var (t, n) := FirstToken(p);
      FirstTokenKept(p, c, q);
      TokensAfterPlain(p[n..], c, q);
      Reassociate(t, Tokens(p[n..]), [Lit(c)], Tokens(q));
    }
  }

  lemma BackslashAlone(c: char, q: string)
    ensures Tokens("\\") == [] + [Lit('\\')]
    ensures Tokens("\\" + [c] + q) == [] + [Lit(c)] + Tokens(q)
  {
    var p := "\\" + [c] + q;
    assert p[2..] == q && Tokens(p) == [Lit(p[1])] + Tokens(p[2..]);
    assert "\\"[1..] == "" && Tokens("\\") == [Lit('\\')] + Tokens("");
  }

  lemma {:induction false} TokensAfterBackslash(p: string, c: char, q: string) returns (ts: seq<Token>)
    requires c != '*' && c != '?' && c != '\\' && Dangles(p)
    ensures Tokens(p) == ts + [Lit('\\')] && Tokens(p + [c] + q) == ts + [Lit(c)] + Tokens(q)
    decreases |p|
  {
    if |p| == 1 {
      assert p == "\\";
      BackslashAlone(c, q);
      ts := [];
    } else {
      var (t, n) := FirstToken(p);
      FirstTokenKept(p, c, q);
      var us := TokensAfterBackslash(p[n..], c, q);
      Reassociate(t, us, [Lit('\\')], []);
      Reassociate(t, us, [Lit(c)], Tokens(q));
      ts := [t] + us;
    }
  }

  lemma Reassociate<T>(x: T, a: seq<T>, b: seq<T>, c: seq<T>)
    ensures [x] + (a + b + c) == ([x] + a) + b + c
    ensures [x] + (a + b) == ([x] + a) + b
  {
  }

  // ----- joining components -----

  /** Single characters, then backslashes. */
  predicate Padding(ts: seq<Token>) {
    exists n :: 0 <= n <= |ts| && PaddingFrom(ts, n)
  }

  predicate PaddingFrom(ts: seq<Token>, n: nat) {
    forall i :: 0 <= i < |ts| ==> ts[i] == if i < n then One else Lit('\\')
  }

  /** Padding behind a star: these tokens take one more backslash at the end of whatever they match. */
  predicate Absorbing(ts: seq<Token>) {
    exists n :: 0 <= n < |ts| && AbsorbingFrom(ts, n)
  }

  predicate AbsorbingFrom(ts: seq<Token>, n: nat)
    requires n < |ts|
  {
    ts[n].Star? && Padding(ts[n + 1..])
  }

  function AllButLast(ts: seq<Token>): seq<Token>
    requires ts != []
  {
    ts[..|ts| - 1]
  }

  /** Text may follow: no backslash dangles, or the tokens before it absorb one. */
  predicate CanPrecede(p: string) {
    Dangles(p) ==> Absorbing(AllButLast(Tokens(p)))
  }

  /** Every component but the last one can stand before a separator. */
  predicate Joinable(pat: Key) {
    forall i :: 0 <= i < |pat.comp| - 1 ==> CanPrecede(pat.comp[i])
  }

  lemma PaddingNext(ts: seq<Token>)
    requires ts != []
    ensures Padding(ts) <==> (ts[0].One? && Padding(ts[1..])) || PaddingFrom(ts, 0)
  {
    if Padding(ts) {
      var n :| 0 <= n <= |ts| && PaddingFrom(ts, n);
      if n > 0 {
        assert PaddingFrom(ts[1..], n - 1);
      }
    }
    if ts[0].One? && Padding(ts[1..]) {
      var n :| 0 <= n <= |ts[1..]| && PaddingFrom(ts[1..], n);
      assert PaddingFrom(ts, n + 1);
    }
  }

  predicate StarFree(ts: seq<Token>) {
    forall i :: 0 <= i < |ts| ==> !ts[i].Star?
  }

  lemma {:induction false} StarFreeLength(v: string, ts: seq<Token>)
    requires StarFree(ts) && Matching(v, ts)
    ensures |v| == |ts|
    decreases |ts|
  {
    if ts != [] {
      StarFreeLength(v[1..], ts[1..]);
    }
  }

  /** Padding still matches when the value moves on by one and a backslash comes in. */
  lemma {:induction false} PaddingShifts(v: string, ts: seq<Token>)
    requires Padding(ts) && Matching(v, ts)
    ensures Matching((v + "\\")[1..], ts)
    decreases |ts|
  {
    var w := v + "\\";
    if ts != [] {
      PaddingNext(ts);
      if ts[0].One? {
        PaddingShifts(v[1..], ts[1..]);
      } else {
        assert PaddingFrom(ts[1..], 0);
        PaddingShifts(v[1..], ts[1..]);
        if |ts| > 1 {
          assert ts[1] == Lit('\\') && ts[1..][0] == ts[1];
        }
      }
      assert w[1..][1..] == (v[1..] + "\\")[1..];
    }
  }

  lemma {:induction false} AbsorbsBackslash(v: string, ts: seq<Token>, n: nat)
    requires n < |ts| && AbsorbingFrom(ts, n) && Matching(v, ts)
    ensures Matching(v + "\\", ts)
    decreases n
  {
    var w := v + "\\";
    if n == 0 {
      var i :| 0 <= i <= |v| && Matching(v[i..], ts[1..]);
      PaddingShifts(v[i..], ts[1..]);
      assert (v[i..] + "\\")[1..] == w[i + 1..];
    } else {
      assert ts[1..][n - 1 + 1..] == ts[n + 1..];
      if ts[0].Star? {
        var i :| 0 <= i <= |v| && Matching(v[i..], ts[1..]);
        AbsorbsBackslash(v[i..], ts[1..], n - 1);
        assert v[i..] + "\\" == w[i..];
      } else {
        AbsorbsBackslash(v[1..], ts[1..], n - 1);
        assert v[1..] + "\\" == w[1..];
      }
    }
  }

  /** Matching component by component implies matching the joined key. */
  lemma {:induction false} JoinMatches(comps: seq<string>, pats: seq<string>)
    requires KeyMatches(Key(comps), Key(pats)) && Joinable(Key(pats))
    ensures Match(Join(comps), Join(pats))
    decreases |comps|
  {
    if |comps| > 1 {
      assert forall i :: 0 <= i < |pats| - 2 ==> pats[1..][i] == pats[i + 1];
      JoinMatches(comps[1..], pats[1..]);
      var ts := BeforeSeparator(pats[0], Join(pats[1..]));
      FirstJoins(comps[0], pats[0], ts);
      var sep := [Lit(SEPARATOR)];
      assert Matching([SEPARATOR], sep);
      ConcatMatches(comps[0], ts, [SEPARATOR], sep);
      ConcatMatches(comps[0] + [SEPARATOR], ts + sep, Join(comps[1..]), Tokens(Join(pats[1..])));
    }
  }

  /** What a component reads as when a separator follows. */
  function Standing(p: string): seq<Token> {
    if p != "" && Dangles(p) then AllButLast(Tokens(p)) else Tokens(p)
  }

  lemma BeforeSeparator(p: string, q: string) returns (ts: seq<Token>)
    ensures ts == Standing(p) && Tokens(p + [SEPARATOR] + q) == ts + [Lit(SEPARATOR)] + Tokens(q)
    ensures Dangles(p) ==> Tokens(p) == ts + [Lit('\\')]
  {
    TokensConcat(p, SEPARATOR, q);
    ts := Standing(p);
    if Dangles(p) {
      var us := TokensAfterBackslash(p, SEPARATOR, q);
      assert us == ts;
    }
  }

  lemma FirstJoins(v: string, p: string, ts: seq<Token>)
    requires CanPrecede(p) && Match(v, p) && ts == Standing(p)
    requires Dangles(p) ==> Tokens(p) == ts + [Lit('\\')]
    ensures Matching(v, ts)
  {
    if Dangles(p) {
      var w := LastBackslash(v, ts);
      var n :| 0 <= n < |ts| && AbsorbingFrom(ts, n);
      AbsorbsBackslash(w, ts, n);
    }
  }

  lemma {:induction false} LastBackslash(v: string, ts: seq<Token>) returns (w: string)
    requires Matching(v, ts + [Lit('\\')])
    ensures v == w + "\\" && Matching(w, ts)
    decreases |ts|
  {
    var us := ts + [Lit('\\')];
    if ts == [] {
      w := "";
      assert v[1..] == "" && v == [v[0]] + v[1..];
    } else {
      assert us[1..] == ts[1..] + [Lit('\\')];
      var i := if ts[0].Star? then var i :| 0 <= i <= |v| && Matching(v[i..], us[1..]); i else 1;
      var x := LastBackslash(v[i..], ts[1..]);
      w := v[..i] + x;
      assert w[i..] == x;
      if ts[0].Star? {
        assert 0 <= i <= |w| && Matching(w[i..], ts[1..]);
      }
    }
  }

  // ----- no other components can be joined -----

  /** A character that is neither c nor the separator nor a backslash. */
  function Other(c: char): (d: char)
    ensures d != c && d != SEPARATOR && d != '\\'
  {
    if c == 'x' then 'y' else 'x'
  }

  /** A value the tokens accept, with nothing for stars. A single character differs from the
      literal c before it. */
  function Sample(ts: seq<Token>, c: char): (v: string)
    ensures Matching(v, ts)
  {
    if ts == [] then ""
    else match ts[0]
      case Lit(d) => [d] + Sample(ts[1..], d)
      case One => [Other(c)] + Sample(ts[1..], SEPARATOR)
      case Star =>
        var rest := Sample(ts[1..], SEPARATOR);
        assert rest[0..] == rest;
        rest
  }

  lemma {:induction false} SampleAppend(ts: seq<Token>, c: char, d: char)
    ensures Sample(ts + [Lit(d)], c) == Sample(ts, c) + [d]
    decreases |ts|
  {
    var us := ts + [Lit(d)];
    if ts == [] {
      assert us[1..] == [];
    } else {
      assert us[1..] == ts[1..] + [Lit(d)];
      SampleAppend(ts[1..], match ts[0] case Lit(e) => e case _ => SEPARATOR, d);
    }
  }

  lemma {:induction false} SampleAfterStar(ts: seq<Token>, c: char, n: nat)
    requires n < |ts| && ts[n].Star?
    ensures var v, w := Sample(ts, c), Sample(ts[n + 1..], SEPARATOR);
            |w| <= |v| && v[|v| - |w|..] == w
    decreases n
  {
    if n > 0 {
      assert ts[1..][n..] == ts[n + 1..];
      SampleAfterStar(ts[1..], match ts[0] case Lit(e) => e case _ => SEPARATOR, n - 1);
    }
  }

  lemma {:induction false} TailMatches(v: string, ts: seq<Token>, n: nat)
    requires n < |ts| && ts[n].Star? && StarFree(ts[n + 1..]) && Matching(v, ts)
    ensures var m := |ts| - n - 1; m <= |v| && Matching(v[|v| - m..], ts[n + 1..])
    decreases n
  {
    var i := FirstPiece(v, ts);
    if n == 0 {
      StarFreeLength(v[i..], ts[1..]);
    } else {
      assert ts[1..][n..] == ts[n + 1..];
      TailMatches(v[i..], ts[1..], n - 1);
      var m := |ts| - n - 1;
      assert v[i..][|v[i..]| - m..] == v[|v| - m..];
    }
  }

  lemma {:induction false} OnlyPaddingShifts(ts: seq<Token>, c: char)
    requires StarFree(ts) && Matching((Sample(ts, c) + "\\")[1..], ts)
    ensures Padding(ts)
    decreases |ts|
  {
    if ts == [] {
      assert PaddingFrom(ts, 0);
    } else {
      var v := Sample(ts, c);
      var d := match ts[0] case Lit(e) => e case _ => SEPARATOR;
      assert v[1..] == Sample(ts[1..], d);
      assert (v + "\\")[1..][1..] == (v[1..] + "\\")[1..];
      OnlyPaddingShifts(ts[1..], d);
      PaddingNext(ts);
      if ts[0].Lit? {
        LiteralShifts(ts, d, v);
      }
    }
  }

  lemma LiteralShifts(ts: seq<Token>, d: char, v: string)
    requires ts != [] && ts[0] == Lit(d) && StarFree(ts) && Padding(ts[1..])
    requires v == [d] + Sample(ts[1..], d) && (v + "\\")[1] == d
    ensures PaddingFrom(ts, 0)
  {
    if |ts| > 1 {
      PaddingNext(ts[1..]);
      assert ts[1..][0] == ts[1] && !ts[1].Star?;
      assert v[1] == Sample(ts[1..], d)[0];
      assert ts[1] == Lit(d);
      assert PaddingFrom(ts[1..], 0);
    }
  }

  /** Exactly the absorbing tokens take one more backslash after everything they match. */
  lemma AbsorbingExactly(ts: seq<Token>)
    ensures Absorbing(ts) <==> forall v :: Matching(v, ts) ==> Matching(v + "\\", ts)
    ensures Absorbing(ts) <==> Matching(Sample(ts, SEPARATOR) + "\\", ts)
  {
    if Absorbing(ts) {
      var n :| 0 <= n < |ts| && AbsorbingFrom(ts, n);
      forall v | Matching(v, ts)
        ensures Matching(v + "\\", ts)
      {
        AbsorbsBackslash(v, ts, n);
      }
    }
    if Matching(Sample(ts, SEPARATOR) + "\\", ts) {
      SampleAbsorbs(ts);
    }
  }

  lemma SampleAbsorbs(ts: seq<Token>)
    requires Matching(Sample(ts, SEPARATOR) + "\\", ts)
    ensures Absorbing(ts)
  {
    var v := Sample(ts, SEPARATOR);
    if StarFree(ts) {
      StarFreeLength(v, ts);
      StarFreeLength(v + "\\", ts);
    } else {
      var n := LastStar(ts);
      var us := ts[n + 1..];
      var w := Sample(us, SEPARATOR);
      SampleAfterStar(ts, SEPARATOR, n);
      StarFreeLength(w, us);
      TailMatches(v + "\\", ts, n);
      var m := |us|;
      assert (v + "\\")[|v| + 1 - m..] == (w + "\\")[1..];
      OnlyPaddingShifts(us, SEPARATOR);
      assert AbsorbingFrom(ts, n);
    }
  }

  lemma {:induction false} LastStar(ts: seq<Token>) returns (n: nat)
    requires !StarFree(ts)
    ensures n < |ts| && ts[n].Star? && StarFree(ts[n + 1..])
  {
    if StarFree(ts[1..]) {
      n := 0;
      assert forall i :: 0 < i < |ts| ==> ts[i] == ts[1..][i - 1];
    } else {
      var m := LastStar(ts[1..]);
      n := m + 1;
      assert ts[1..][m + 1..] == ts[n + 1..];
    }
  }

  // ----- separators keep components apart -----

  function Separators(v: string): nat {
    if v == "" then 0 else (if v[0] == SEPARATOR then 1 else 0) + Separators(v[1..])
  }

  function SeparatorTokens(ts: seq<Token>): nat {
    if ts == [] then 0 else (if ts[0] == Lit(SEPARATOR) then 1 else 0) + SeparatorTokens(ts[1..])
  }

  lemma {:induction false} SeparatorsConcat(v: string, w: string)
    ensures Separators(v + w) == Separators(v) + Separators(w)
    decreases |v|
  {
    if v == "" {
      assert v + w == w;
    } else {
      SeparatorsConcat(v[1..], w);
      assert (v + w)[1..] == v[1..] + w;
    }
  }

  lemma {:induction false} SeparatorTokensConcat(ts: seq<Token>, us: seq<Token>)
    ensures SeparatorTokens(ts + us) == SeparatorTokens(ts) + SeparatorTokens(us)
    decreases |ts|
  {
    if ts == [] {
      assert ts + us == us;
    } else {
      SeparatorTokensConcat(ts[1..], us);
      assert (ts + us)[1..] == ts[1..] + us;
    }
  }

  lemma {:induction false} NoSeparators(v: string)
    ensures Separators(v) == 0 <==> SEPARATOR !in v
    decreases |v|
  {
    if v != "" {
      NoSeparators(v[1..]);
      assert v == [v[0]] + v[1..];
    }
  }

  lemma {:induction false} EnoughSeparators(v: string, ts: seq<Token>)
    requires Matching(v, ts)
    ensures Separators(v) >= SeparatorTokens(ts)
    decreases |ts|
  {
    if ts != [] {
      var i := FirstPiece(v, ts);
      EnoughSeparators(v[i..], ts[1..]);
      assert v == v[..i] + v[i..];
      SeparatorsConcat(v[..i], v[i..]);
      if ts[0].Lit? {
        assert v[..1] == [v[0]];
      }
    }
  }

  /** A match of concatenated tokens is cut where they meet. */
  lemma {:induction false} MatchIsCut(v: string, ts: seq<Token>, us: seq<Token>) returns (i: nat)
    requires Matching(v, ts + us)
    ensures i <= |v| && Matching(v[..i], ts) && Matching(v[i..], us)
    decreases |ts|
  {
    if ts == [] {
      i := 0;
      assert ts + us == us && v[0..] == v;
    } else {
      assert (ts + us)[0] == ts[0] && (ts + us)[1..] == ts[1..] + us;
      var n := FirstPiece(v, ts + us);
      var j := MatchIsCut(v[n..], ts[1..], us);
      i := n + j;
      SliceSlice(v, n, j);
      if ts[0].Star? {
        assert 0 <= n <= |v[..i]| && Matching(v[..i][n..], ts[1..]);
      }
    }
  }

  /** How much of the value the first token takes. */
  lemma FirstPiece(v: string, ts: seq<Token>) returns (n: nat)
    requires ts != [] && Matching(v, ts)
    ensures n <= |v| && Matching(v[n..], ts[1..]) && (ts[0].Star? || n == 1)
  {
    n := 1;
    if ts[0].Star? {
      n :| 0 <= n <= |v| && Matching(v[n..], ts[1..]);
    }
  }

  lemma SliceSlice(v: string, n: nat, j: nat)
    requires n + j <= |v|
    ensures v[..n + j][n..] == v[n..][..j] && v[n + j..] == v[n..][j..]
    ensures n > 0 ==> v[..n + j] != "" && v[..n + j][0] == v[0]
  {
  }

  lemma FewerSeparators(v: string, i: nat)
    requires i < |v| && v[i] == SEPARATOR
    ensures Separators(v[i + 1..]) < Separators(v)
  {
    assert v == v[..i] + v[i..] && v[i..][1..] == v[i + 1..];
    SeparatorsConcat(v[..i], v[i..]);
  }

  lemma SeparatorBetween(v: string, rest: string, w: string, i: nat)
    requires SEPARATOR !in v && w == v + [SEPARATOR] + rest && i < |w| && w[i] == SEPARATOR
    requires Separators(w[i + 1..]) >= Separators(rest)
    ensures i == |v|
  {
    forall j | 0 <= j < |v|
      ensures w[j] != SEPARATOR
    {
      assert v[j] in v;
    }
    if i > |v| {
      assert w[i + 1..] == rest[i - |v|..];
      FewerSeparators(rest, i - |v| - 1);
    }
  }

  /** With as many separators in the value as in the pattern, components match one by one. */
  lemma SeparatorsAlign(v: string, rest: string, ts: seq<Token>, us: seq<Token>)
    requires SEPARATOR !in v && Separators(rest) == SeparatorTokens(us)
    requires Matching(v + [SEPARATOR] + rest, ts + [Lit(SEPARATOR)] + us)
    ensures Matching(v, ts) && Matching(rest, us)
  {
    var w, sep := v + [SEPARATOR] + rest, [Lit(SEPARATOR)];
    assert ts + sep + us == ts + (sep + us);
    var i := MatchIsCut(w, ts, sep + us);
    assert (sep + us)[1..] == us && w[i..][1..] == w[i + 1..];
    EnoughSeparators(w[i + 1..], us);
    SeparatorBetween(v, rest, w, i);
    assert w[..|v|] == v && w[|v| + 1..] == rest;
  }

  lemma {:induction false} TokensWithout(p: string, c: char)
    requires c !in p
    ensures Lit(c) !in Tokens(p)
    decreases |p|
  {
    if p != "" {
      var (t, n) := FirstToken(p);
      TokensWithout(p[n..], c);
    }
  }

  lemma {:induction false} SampleWithout(ts: seq<Token>, c: char)
    requires Lit(SEPARATOR) !in ts
    ensures SEPARATOR !in Sample(ts, c)
    decreases |ts|
  {
    if ts != [] {
      SampleWithout(ts[1..], match ts[0] case Lit(e) => e case _ => SEPARATOR);
    }
  }

  lemma {:induction false} NoSeparatorTokens(ts: seq<Token>)
    requires Lit(SEPARATOR) !in ts
    ensures SeparatorTokens(ts) == 0
    decreases |ts|
  {
    if ts != [] {
      NoSeparatorTokens(ts[1..]);
    }
  }

  predicate SeparatorFree(comps: seq<string>) {
    forall i :: 0 <= i < |comps| ==> SEPARATOR !in comps[i]
  }

  function Samples(pats: seq<string>): (vs: seq<string>)
    ensures |vs| == |pats| && forall i :: 0 <= i < |pats| ==> vs[i] == Sample(Tokens(pats[i]), SEPARATOR)
    ensures KeyMatches(Key(vs), Key(pats))
  {
    seq(|pats|, i requires 0 <= i < |pats| => Sample(Tokens(pats[i]), SEPARATOR))
  }

  lemma SamplesSeparatorFree(pats: seq<string>)
    requires SeparatorFree(pats)
    ensures SeparatorFree(Samples(pats))
  {
    forall i | 0 <= i < |pats|
      ensures SEPARATOR !in Samples(pats)[i]
    {
      TokensWithout(pats[i], SEPARATOR);
      SampleWithout(Tokens(pats[i]), SEPARATOR);
    }
  }

  lemma {:induction false} JoinedSeparators(comps: seq<string>)
    requires SeparatorFree(comps) && comps != []
    ensures Separators(Join(comps)) == |comps| - 1
    decreases |comps|
  {
    NoSeparators(comps[0]);
    if |comps| > 1 {
      JoinedSeparators(comps[1..]);
      SeparatorsConcat(comps[0] + [SEPARATOR], Join(comps[1..]));
      SeparatorsConcat(comps[0], [SEPARATOR]);
    }
  }

  lemma {:induction false} JoinedSeparatorTokens(pats: seq<string>)
    requires SeparatorFree(pats) && pats != []
    ensures SeparatorTokens(Tokens(Join(pats))) == |pats| - 1
    decreases |pats|
  {
    TokensWithout(pats[0], SEPARATOR);
    if |pats| > 1 {
      JoinedSeparatorTokens(pats[1..]);
      var ts := BeforeSeparator(pats[0], Join(pats[1..]));
      SeparatorTokensConcat(ts + [Lit(SEPARATOR)], Tokens(Join(pats[1..])));
      SeparatorTokensConcat(ts, [Lit(SEPARATOR)]);
      NoSeparatorTokens(ts);
    } else {
      NoSeparatorTokens(Tokens(pats[0]));
    }
  }

  /** The samples of components match the joined pattern only if the components can be joined. */
  lemma {:induction false} SamplesTell(pats: seq<string>)
    requires SeparatorFree(pats) && Match(Join(Samples(pats)), Join(pats))
    ensures Joinable(Key(pats))
    decreases |pats|
  {
    if |pats| > 1 {
      var vs := Samples(pats);
      SamplesSeparatorFree(pats);
      assert Samples(pats[1..]) == vs[1..];
      var ts := BeforeSeparator(pats[0], Join(pats[1..]));
      JoinedSeparators(vs[1..]);
      JoinedSeparatorTokens(pats[1..]);
      SeparatorsAlign(vs[0], Join(vs[1..]), ts, Tokens(Join(pats[1..])));
      SamplesTell(pats[1..]);
      if Dangles(pats[0]) {
        SampleAppend(ts, SEPARATOR, '\\');
        AbsorbingExactly(ts);
      }
      assert forall i :: 0 < i < |pats| ==> pats[i] == pats[1..][i - 1];
    }
  }

  /** Component by component or joined: for components without separators the two agree exactly
      when every component but the last one can precede a separator. */
  lemma JoinMatchesExactly(pat: Key)
    requires SeparatorFree(pat.comp)
    ensures Joinable(pat) <==> forall k :: KeyMatches(k, pat) ==> Match(Join(k.comp), Join(pat.comp))
    ensures Joinable(pat) <==> Match(Join(Samples(pat.comp)), Join(pat.comp))
  {
    if Joinable(pat) {
      forall k | KeyMatches(k, pat)
        ensures Match(Join(k.comp), Join(pat.comp))
      {
        JoinMatches(k.comp, pat.comp);
      }
    }
    assert KeyMatches(Key(Samples(pat.comp)), pat);
    if Match(Join(Samples(pat.comp)), Join(pat.comp)) {
      SamplesTell(pat.comp);
    }
  }

  // ----- literal table names -----

  /** A table name that stands for itself inside a pattern. */
  predicate PlainName(t: string) {
    TableName(t) && '*' !in t && '?' !in t && '\\' !in t
  }

  lemma {:induction false} PlainPrefix(t: string, v: string, q: string)
    requires PlainName(t)
    ensures Match(v, t + [SEPARATOR] + q) <==>
            SEPARATOR in v && Head(v) == t && Match(Tail(v), q)
    decreases |t|
  {
    HeadPrefix(v);
    var p := t + [SEPARATOR] + q;
    if t == "" {
      assert p[1..] == q;
      assert Tokens(p) == [Lit(SEPARATOR)] + Tokens(q);
      if v != "" && v[0] == SEPARATOR {
        assert Tail(v) == v[1..];
      }
    } else {
      assert p[1..] == t[1..] + [SEPARATOR] + q;
      assert Tokens(p) == [Lit(t[0])] + Tokens(p[1..]);
      assert Tokens(p)[1..] == Tokens(p[1..]);
      if v != "" && v[0] == t[0] {
        PlainPrefix(t[1..], v[1..], q);
        if SEPARATOR in v[1..] {
          HeadPrefix(v[1..]);
          assert Head(v) == [v[0]] + Head(v[1..]);
          assert Tail(v) == Tail(v[1..]);
        }
      }
    }
  }
}
