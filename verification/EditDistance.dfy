/** `levenshtein`: the one-row loop, the recursive edit distance it computes, and what that
    distance means: a metric, and the length of a shortest edit script. */
module EditDistance {

  /** `min3`, with the source's own tie handling. */
  function Min3(a: int, b: int, c: int): int {
    if a < b && a < c then a else if b < c then b else c
  }

  function Min(a: nat, b: nat): nat {
    if a < b then a else b
  }

  function Init(s: string): string
    requires s != []
  {
    s[..|s| - 1]
  }

  function Last(s: string): char
    requires s != []
  {
    s[|s| - 1]
  }

  function Cost(c: char, d: char): nat {
    if c == d then 0 else 1
  }

  /** The recursive minimum: delete the last rune, insert it, or substitute it. */
  function Distance(a: string, b: string): nat
    decreases |a| + |b|
  {
    if a == [] then |b|
    else if b == [] then |a|
    else
      Min(Distance(Init(a), b) + 1,
          Min(Distance(a, Init(b)) + 1, Distance(Init(a), Init(b)) + Cost(Last(a), Last(b))))
  }

  // ---------------------------------------------------------------- a metric

  lemma {:induction false} DistanceBounds(a: string, b: string)
    ensures |a| - |b| <= Distance(a, b) && |b| - |a| <= Distance(a, b)
    ensures Distance(a, b) <= if |a| < |b| then |b| else |a|
    decreases |a| + |b|
  {
    if a != [] && b != [] {
      DistanceBounds(Init(a), b);
      DistanceBounds(a, Init(b));
      DistanceBounds(Init(a), Init(b));
    }
  }

  lemma {:induction false} DistanceZeroIffEqual(a: string, b: string)
    ensures Distance(a, b) == 0 <==> a == b
    decreases |a|
  {
    if a != [] && b != [] {
      DistanceZeroIffEqual(Init(a), Init(b));
      assert a == Init(a) + [Last(a)] && b == Init(b) + [Last(b)];
    }
  }

  lemma {:induction false} DistanceSymmetric(a: string, b: string)
    ensures Distance(a, b) == Distance(b, a)
    decreases |a| + |b|
  {
    if a != [] && b != [] {
      DistanceSymmetric(Init(a), b);
      DistanceSymmetric(a, Init(b));
      DistanceSymmetric(Init(a), Init(b));
    }
  }

  lemma {:induction false} DistanceTriangle(a: string, b: string, c: string)
    ensures Distance(a, c) <= Distance(a, b) + Distance(b, c)
    decreases |a| + |b| + |c|
  {
    if a == [] || b == [] || c == [] {
      DistanceBounds(a, b);
      DistanceBounds(b, c);
      DistanceBounds(a, c);
    } else if Distance(a, b) == Distance(Init(a), b) + 1 {
      DistanceTriangle(Init(a), b, c);
    } else if Distance(b, c) == Distance(b, Init(c)) + 1 {
      DistanceTriangle(a, b, Init(c));
    } else if Distance(a, b) == Distance(a, Init(b)) + 1 {
      DistanceTriangle(a, Init(b), c);
      DistanceTriangle(a, Init(b), Init(c));
    } else if Distance(b, c) == Distance(Init(b), c) + 1 {
      DistanceTriangle(Init(a), Init(b), c);
    } else {
      DistanceTriangle(Init(a), Init(b), Init(c));
    }
  }

  // ---------------------------------------------------------------- edit scripts

  /** `t` is `s` without one of its runes. */
  ghost predicate Deletes(s: string, t: string) {
    exists i | 0 <= i < |s| :: t == s[..i] + s[i + 1..]
  }

  ghost predicate Substitutes(s: string, t: string) {
    |s| == |t| && exists i | 0 <= i < |s| :: t[..i] == s[..i] && t[i + 1..] == s[i + 1..]
  }

  /** One deletion, one insertion or one substitution, anywhere in the string. */
  ghost predicate OneEdit(s: string, t: string) {
    Deletes(s, t) || Deletes(t, s) || Substitutes(s, t)
  }

  /** A script: the successive strings from `a` to `b`. */
  ghost predicate IsScript(script: seq<string>, a: string, b: string) {
    && script != [] && script[0] == a && script[|script| - 1] == b
    && forall k | 0 < k < |script| :: OneEdit(script[k - 1], script[k])
  }

  lemma {:induction false} CommonSuffix(a: string, b: string, suffix: string)
    ensures Distance(a + suffix, b + suffix) <= Distance(a, b)
    decreases |suffix|
  {
    if suffix == [] {
      assert a + suffix == a && b + suffix == b;
    } else {
      CommonSuffix(a, b, Init(suffix));
      assert Init(a + suffix) == a + Init(suffix) && Init(b + suffix) == b + Init(suffix);
    }
  }

  lemma DeletionCostsOne(s: string, t: string)
    requires Deletes(s, t)
    ensures Distance(s, t) <= 1
  {
    var i :| 0 <= i < |s| && t == s[..i] + s[i + 1..];
    assert s == s[..i + 1] + s[i + 1..];
    CommonSuffix(s[..i + 1], s[..i], s[i + 1..]);
    assert Init(s[..i + 1]) == s[..i];
    DistanceZeroIffEqual(s[..i], s[..i]);
  }

  lemma SubstitutionCostsOne(s: string, t: string)
    requires Substitutes(s, t)
    ensures Distance(s, t) <= 1
  {
    var i :| 0 <= i < |s| && t[..i] == s[..i] && t[i + 1..] == s[i + 1..];
    var left, right := s[..i + 1], t[..i + 1];
    assert s == left + s[i + 1..] && t == right + t[i + 1..];
    CommonSuffix(left, right, s[i + 1..]);
    assert Init(left) == s[..i] && Init(right) == t[..i];
    DistanceZeroIffEqual(s[..i], t[..i]);
  }

  lemma OneEditCostsOne(s: string, t: string)
    requires OneEdit(s, t)
    ensures Distance(s, t) <= 1
  {
    if Deletes(s, t) {
      DeletionCostsOne(s, t);
    } else if Deletes(t, s) {
      DeletionCostsOne(t, s);
      DistanceSymmetric(s, t);
    } else {
      SubstitutionCostsOne(s, t);
    }
  }

  /** No script is shorter than the distance. */
  lemma {:induction false} ScriptIsNotShorter(script: seq<string>, a: string, b: string)
    requires IsScript(script, a, b)
    ensures Distance(a, b) <= |script| - 1
    decreases |script|
  {
    if |script| == 1 {
      DistanceZeroIffEqual(a, b);
    } else {
      var mid := script[|script| - 2];
      ScriptIsNotShorter(script[..|script| - 1], a, mid);
      OneEditCostsOne(mid, b);
      DistanceTriangle(a, mid, b);
    }
  }

  lemma ExtendScript(script: seq<string>, a: string, mid: string, b: string)
    requires IsScript(script, a, mid) && OneEdit(mid, b)
    ensures IsScript(script + [b], a, b)
  {
  }

  lemma OneEditUnder(s: string, t: string, c: char)
    requires OneEdit(s, t)
    ensures OneEdit(s + [c], t + [c])
  {
    if Deletes(s, t) {
      DeletesUnder(s, t, c);
    } else if Deletes(t, s) {
      DeletesUnder(t, s, c);
    } else {
      var i :| 0 <= i < |s| && t[..i] == s[..i] && t[i + 1..] == s[i + 1..];
      assert (t + [c])[..i] == (s + [c])[..i];
      assert (t + [c])[i + 1..] == t[i + 1..] + [c] == (s + [c])[i + 1..];
    }
  }

  lemma DeletesUnder(s: string, t: string, c: char)
    requires Deletes(s, t)
    ensures Deletes(s + [c], t + [c])
  {
    var i :| 0 <= i < |s| && t == s[..i] + s[i + 1..];
    assert t + [c] == (s + [c])[..i] + (s + [c])[i + 1..];
  }

  /** A script carries over to strings with one more common rune at the end. */
  lemma ScriptUnder(script: seq<string>, a: string, b: string, c: char) returns (longer: seq<string>)
    requires IsScript(script, a, b)
    ensures IsScript(longer, a + [c], b + [c]) && |longer| == |script|
  {
    longer := seq(|script|, i requires 0 <= i < |script| => script[i] + [c]);
    forall k | 0 < k < |longer|
      ensures OneEdit(longer[k - 1], longer[k])
    {
      OneEditUnder(script[k - 1], script[k], c);
    }
  }

  lemma InitDeletes(s: string)
    requires s != []
    ensures Deletes(s, Init(s))
  {
    assert Init(s) == s[..|s| - 1] + s[|s| - 1 + 1..];
  }

  lemma DropScript(a: string, b: string, rest: seq<string>)
    requires a != [] && IsScript(rest, Init(a), b)
    ensures IsScript([a] + rest, a, b)
  {
    InitDeletes(a);
    var script := [a] + rest;
    forall k | 0 < k < |script|
      ensures OneEdit(script[k - 1], script[k])
    {
      assert k > 1 ==> OneEdit(rest[k - 2], rest[k - 1]);
    }
  }

  /** A script of exactly that length exists. */
  lemma {:induction false} ShortestScript(a: string, b: string) returns (script: seq<string>)
    ensures IsScript(script, a, b) && |script| - 1 == Distance(a, b)
    decreases |a| + |b|
  {
    if a == [] && b == [] {
      script := [a];
    } else if a != [] && Distance(a, b) == Distance(Init(a), b) + 1 {
      script := ShortestScript(Init(a), b);
      DropScript(a, b, script);
      script := [a] + script;
    } else if b != [] && Distance(a, b) == Distance(a, Init(b)) + 1 {
      var rest := ShortestScript(a, Init(b));
      InitDeletes(b);
      ExtendScript(rest, a, Init(b), b);
      script := rest + [b];
    } else {
      EmptyDistance(a, b);
      var rest := ShortestScript(Init(a), Init(b));
      script := SubstituteScript(a, b, rest);
    }
  }

  lemma EmptyDistance(a: string, b: string)
    ensures a == [] && b != [] ==> Distance(a, b) == Distance(a, Init(b)) + 1
    ensures b == [] && a != [] ==> Distance(a, b) == Distance(Init(a), b) + 1
  {
  }

  lemma SubstituteScript(a: string, b: string, rest: seq<string>) returns (script: seq<string>)
    requires a != [] && b != [] && IsScript(rest, Init(a), Init(b))
    ensures IsScript(script, a, b) && |script| == |rest| + Cost(Last(a), Last(b))
  {
    assert a == Init(a) + [Last(a)] && b == Init(b) + [Last(b)];
    script := ScriptUnder(rest, Init(a), Init(b), Last(a));
    if Last(a) != Last(b) {
      var near, i := Init(b) + [Last(a)], |b| - 1;
      assert b[..i] == near[..i] && b[i + 1..] == near[i + 1..];
      ExtendScript(script, a, near, b);
      script := script + [b];
    }
  }

  /** The distance is the least number of single-rune edits that turn one string into the other. */
  lemma DistanceIsShortestScript(a: string, b: string)
    ensures exists script :: IsScript(script, a, b) && |script| - 1 == Distance(a, b)
    ensures forall script | IsScript(script, a, b) :: Distance(a, b) <= |script| - 1
  {
    var script := ShortestScript(a, b);
    assert IsScript(script, a, b);
    forall script | IsScript(script, a, b)
      ensures Distance(a, b) <= |script| - 1
    {
      ScriptIsNotShorter(script, a, b);
    }
  }

  // ---------------------------------------------------------------- the one-row loop

  /** An entry of the distance table: the distance of the prefixes of lengths `x` and `y`. */
  ghost function Entry(a: string, b: string, x: int, y: int): nat {
    if 0 <= x <= |a| && 0 <= y <= |b| then Distance(a[..x], b[..y]) else 0
  }

  lemma EntryStep(a: string, b: string, x: nat, y: nat)
    requires 0 < x <= |a| && 0 < y <= |b|
    ensures Entry(a, b, x, y)
         == Min3(Entry(a, b, x - 1, y) + 1, Entry(a, b, x, y - 1) + 1,
                 Entry(a, b, x - 1, y - 1) + Cost(a[x - 1], b[y - 1]))
  {
    assert Init(a[..x]) == a[..x - 1] && Init(b[..y]) == b[..y - 1];
  }

  lemma EntryBorder(a: string, b: string)
    ensures forall x | 0 <= x <= |a| :: Entry(a, b, x, 0) == x
    ensures forall y | 0 <= y <= |b| :: Entry(a, b, 0, y) == y
    ensures Entry(a, b, |a|, |b|) == Distance(a, b)
  {
    assert a[..|a|] == a && b[..|b|] == b;
  }

  /** The array holds row `x` of the distance table up to `y`, and row `x - 1` from there on. */
  ghost predicate HoldsRows(column: array<nat>, a: string, b: string, x: int, y: int)
    reads column
  {
    && column.Length == |b| + 1
    && forall k | 0 <= k <= |b| :: column[k] == Entry(a, b, if k < y then x else x - 1, k)
  }

  /** The inner loop: overwrites row `x - 1` with row `x` in place. */
  method NextRow(a: string, b: string, x: nat, column: array<nat>)
    requires 0 < x <= |a| && HoldsRows(column, a, b, x, 0)
    modifies column
    ensures HoldsRows(column, a, b, x, |b| + 1)
  {
    EntryBorder(a, b);
    column[0] := x;
    var lastdiag := x - 1;
    for y := 1 to |b| + 1
      invariant lastdiag == Entry(a, b, x - 1, y - 1)
      invariant HoldsRows(column, a, b, x, y)
    {
      var olddiag := column[y];
      var cost := 0;
      if a[x - 1] != b[y - 1] {
        cost := 1;
      }
      EntryStep(a, b, x, y);
      column[y] := Min3(column[y] + 1, column[y - 1] + 1, lastdiag + cost);
      lastdiag := olddiag;
    }
  }

  method Levenshtein(a: string, b: string) returns (distance: nat)
    ensures distance == Distance(a, b)
  {
    if a == b {
      DistanceZeroIffEqual(a, b);
      return 0;
    }
    if |a| == 0 {
      return |b|;
    }
    if |b| == 0 {
      return |a|;
    }
    EntryBorder(a, b);
    var column := new nat[|b| + 1](_ => 0);
    for y := 1 to |b| + 1
      invariant forall k | 0 <= k < y :: column[k] == k
    {
      column[y] := y;
    }
    for x := 1 to |a| + 1
      invariant HoldsRows(column, a, b, x, 0)
    {
      NextRow(a, b, x, column);
    }
    distance := column[|b|];
  }
}
