/** The Go string library the catalog leans on, over sequences of runes: white space, trimming,
    splitting into fields, joining, and the byte order of strings (which is code point order). */
module Text {

  datatype Option<+T> = None | Some(value: T)

  function Lookup<V>(rows: map<string, V>, id: string): Option<V> {
    if id in rows then Some(rows[id]) else None
  }

  /** Go's `unicode.IsSpace`. */
  predicate IsSpace(c: char) {
    || '\t' <= c <= '\r' || c == ' ' || c == '\U{85}' || c == '\U{A0}' || c == '\U{1680}'
    || '\U{2000}' <= c <= '\U{200A}' || c == '\U{2028}' || c == '\U{2029}' || c == '\U{202F}'
    || c == '\U{205F}' || c == '\U{3000}'
  }

  /** The twenty-five runes of the Unicode property White_Space. */
  const WHITE_SPACE: set<char> := {
    '\t', '\n', '\U{B}', '\U{C}', '\r', ' ', '\U{85}', '\U{A0}', '\U{1680}', '\U{2000}', '\U{2001}', '\U{2002}',
    '\U{2003}', '\U{2004}', '\U{2005}', '\U{2006}', '\U{2007}', '\U{2008}', '\U{2009}', '\U{200A}', '\U{2028}',
    '\U{2029}', '\U{202F}', '\U{205F}', '\U{3000}'}

  lemma SpaceExactly(c: char)
    ensures IsSpace(c) <==> c in WHITE_SPACE
  {
    if '\U{2000}' <= c <= '\U{200A}' {
      assert c as int - 0x2000 in {0, 1, 2, 3, 4, 5, 6, 7, 8, 9, 10};
    }
    if '\t' <= c <= '\r' {
      assert c as int - 9 in {0, 1, 2, 3, 4};
    }
  }

  function TrimLeft(cut: char -> bool, s: string): (t: string)
    ensures t == [] || !cut(t[0])
    ensures (s == [] || !cut(s[0])) ==> t == s
    ensures s != [] && !cut(s[|s| - 1]) ==> t != [] && t[|t| - 1] == s[|s| - 1]
  {
    if s != [] && cut(s[0]) then TrimLeft(cut, s[1..]) else s
  }

  function TrimRight(cut: char -> bool, s: string): (t: string)
    ensures t <= s
    ensures t == [] || !cut(t[|t| - 1])
    ensures (s == [] || !cut(s[|s| - 1])) ==> t == s
  {
    if s != [] && cut(s[|s| - 1]) then TrimRight(cut, s[..|s| - 1]) else s
  }

  /** `strings.Trim` with the set of cut characters given as a predicate. */
  function Trim(cut: char -> bool, s: string): (t: string)
    ensures t != [] ==> !cut(t[0]) && !cut(t[|t| - 1])
    ensures (s == [] || (!cut(s[0]) && !cut(s[|s| - 1]))) ==> t == s
  {
    TrimRight(cut, TrimLeft(cut, s))
  }

  function TrimSpace(s: string): (t: string)
    ensures t == [] || (!IsSpace(t[0]) && !IsSpace(t[|t| - 1]))
    ensures (s == [] || (!IsSpace(s[0]) && !IsSpace(s[|s| - 1]))) ==> t == s
  {
    Trim(IsSpace, s)
  }

  predicate IsBlank(s: string) {
    TrimSpace(s) == []
  }

  ghost predicate AllSpace(s: string) {
    forall c <- s :: IsSpace(c)
  }

  /** What is cut off on the left, and on the right. */
  lemma {:induction false} TrimLeftParts(s: string) returns (cut: string)
    ensures AllSpace(cut) && s == cut + TrimLeft(IsSpace, s)
    decreases |s|
  {
    cut := "";
    if s != [] && IsSpace(s[0]) {
      cut := TrimLeftParts(s[1..]);
      cut := [s[0]] + cut;
    }
  }

  lemma {:induction false} TrimRightParts(s: string) returns (cut: string)
    ensures AllSpace(cut) && s == TrimRight(IsSpace, s) + cut
    decreases |s|
  {
    cut := "";
    if s != [] && IsSpace(s[|s| - 1]) {
      cut := TrimRightParts(s[..|s| - 1]);
      cut := cut + [s[|s| - 1]];
    }
  }

  /** Trimming takes white space off both ends, and all of it. */
  lemma TrimSpaceParts(s: string) returns (before: string, after: string)
    ensures AllSpace(before) && AllSpace(after) && s == before + TrimSpace(s) + after
    ensures TrimSpace(s) == [] || (!IsSpace(TrimSpace(s)[0]) && !IsSpace(TrimSpace(s)[|TrimSpace(s)| - 1]))
  {
    before := TrimLeftParts(s);
    after := TrimRightParts(TrimLeft(IsSpace, s));
  }

  /** Go's `coalesceString` on two values: the first that is not blank, else the empty string. */
  function Coalesce(first: string, second: string): string {
    if !IsBlank(first) then first else if !IsBlank(second) then second else ""
  }

  /** The maximal runs of characters that are not separators, in order. With `IsSpace` as the
      separator this is `strings.Fields`. */
  function SplitBy(sep: char -> bool, s: string): (words: seq<string>)
    ensures forall i | 0 <= i < |words| :: IsWord(sep, words[i])
    ensures s != [] && !sep(s[|s| - 1]) ==> words != []
  {
    if s == [] then []
    else
      var init, c := s[..|s| - 1], s[|s| - 1];
      var words := SplitBy(sep, init);
      if sep(c) then words
      else if init == [] || sep(init[|init| - 1]) then words + [[c]]
      else words[..|words| - 1] + [words[|words| - 1] + [c]]
  }

  predicate IsWord(sep: char -> bool, w: string) {
    w != [] && forall c <- w :: !sep(c)
  }

  function Fields(s: string): seq<string> {
    SplitBy(IsSpace, s)
  }

  /** `strings.Join` with a one-character separator. */
  function Join(words: seq<string>, d: char): string {
    if words == [] then []
    else if |words| == 1 then words[0]
    else Join(words[..|words| - 1], d) + [d] + words[|words| - 1]
  }

  lemma SplitSnoc(sep: char -> bool, s: string, c: char)
    ensures sep(c) ==> SplitBy(sep, s + [c]) == SplitBy(sep, s)
    ensures !sep(c) && (s == [] || sep(s[|s| - 1])) ==> SplitBy(sep, s + [c]) == SplitBy(sep, s) + [[c]]
    ensures !sep(c) && s != [] && !sep(s[|s| - 1]) ==>
              var words := SplitBy(sep, s);
              SplitBy(sep, s + [c]) == words[..|words| - 1] + [words[|words| - 1] + [c]]
  {
    assert (s + [c])[..|s|] == s;
  }

  /** A word behind a separator is one more word. */
  lemma {:induction false} SplitSnocWord(sep: char -> bool, base: string, w: string)
    requires base != [] && sep(base[|base| - 1]) && IsWord(sep, w)
    ensures SplitBy(sep, base + w) == SplitBy(sep, base) + [w]
    decreases |w|
  {
    var v, c := w[..|w| - 1], w[|w| - 1];
    assert c in w && w == v + [c];
    SplitSnoc(sep, base + v, c);
    assert base + w == (base + v) + [c];
    if |w| == 1 {
      assert base + v == base;
    } else {
      SplitSnocWord(sep, base, v);
      assert v[|v| - 1] in w;
    }
  }

  lemma {:induction false} SplitOneWord(sep: char -> bool, w: string)
    requires IsWord(sep, w)
    ensures SplitBy(sep, w) == [w]
    decreases |w|
  {
    if |w| == 1 {
      assert w == [w[0]];
    } else {
      var v := w[..|w| - 1];
      SplitOneWord(sep, v);
      assert v[|v| - 1] in v;
      assert w == v + [w[|w| - 1]];
    }
  }

  lemma SplitJoinStep(sep: char -> bool, s: string, d: char, w: string)
    requires sep(d) && IsWord(sep, w)
    ensures SplitBy(sep, s + [d] + w) == SplitBy(sep, s) + [w]
  {
    SplitSnoc(sep, s, d);
    SplitSnocWord(sep, s + [d], w);
  }

  /** Splitting undoes joining. */
  lemma {:induction false} SplitJoin(sep: char -> bool, words: seq<string>, d: char)
    requires sep(d)
    requires forall w <- words :: IsWord(sep, w)
    ensures SplitBy(sep, Join(words, d)) == words
    decreases |words|
  {
    if words == [] {
    } else if |words| == 1 {
      SplitOneWord(sep, words[0]);
      InitAndLast(words);
    } else {
      var init, last := words[..|words| - 1], words[|words| - 1];
      SplitJoin(sep, init, d);
      SplitJoinStep(sep, Join(init, d), d, last);
      InitAndLast(words);
    }
  }

  lemma InitAndLast<T>(xs: seq<T>)
    requires xs != []
    ensures xs == xs[..|xs| - 1] + [xs[|xs| - 1]]
  {
  }

  lemma {:induction false} JoinEnds(sep: char -> bool, words: seq<string>, d: char)
    requires words != [] && forall w <- words :: IsWord(sep, w)
    ensures Join(words, d) != []
    ensures !sep(Join(words, d)[0]) && !sep(Join(words, d)[|Join(words, d)| - 1])
    decreases |words|
  {
    var last := words[|words| - 1];
    assert last in words && last[|last| - 1] in last;
    if |words| == 1 {
      assert last[0] in last;
    } else {
      JoinEnds(sep, words[..|words| - 1], d);
    }
  }

  /** Leading and trailing separators do not change the words. */
  lemma {:induction false} SplitDropsLeading(sep: char -> bool, s: string)
    requires s != [] && sep(s[0])
    ensures SplitBy(sep, s) == SplitBy(sep, s[1..])
    decreases |s|
  {
    if |s| > 1 {
      var init := s[..|s| - 1];
      SplitDropsLeading(sep, init);
      assert s[1..][..|s[1..]| - 1] == init[1..];
    }
  }

  lemma SplitDropsTrailing(sep: char -> bool, s: string)
    requires s != [] && sep(s[|s| - 1])
    ensures SplitBy(sep, s) == SplitBy(sep, s[..|s| - 1])
  {
  }

  lemma {:induction false} SplitTrim(sep: char -> bool, cut: char -> bool, s: string)
    requires forall c | cut(c) :: sep(c)
    ensures SplitBy(sep, TrimLeft(cut, s)) == SplitBy(sep, s)
    ensures SplitBy(sep, TrimRight(cut, s)) == SplitBy(sep, s)
    decreases |s|
  {
    if s != [] && cut(s[0]) {
      SplitDropsLeading(sep, s);
      SplitTrim(sep, cut, s[1..]);
    }
    if s != [] && cut(s[|s| - 1]) {
      SplitTrim(sep, cut, s[..|s| - 1]);
    }
  }

  // ---------------------------------------------------------------- order of strings

  predicate Less(a: string, b: string) {
    b != [] && (a == [] || a[0] < b[0] || (a[0] == b[0] && Less(a[1..], b[1..])))
  }

  /** `a` and `b` agree up to `k`, where `a` ends or has the smaller rune. */
  predicate FallsShortAt(a: string, b: string, k: nat) {
    k <= |a| && k < |b| && a[..k] == b[..k] && (k == |a| || a[k] < b[k])
  }

  lemma {:induction false} FirstDifference(a: string, b: string) returns (k: nat)
    requires Less(a, b)
    ensures FallsShortAt(a, b, k)
    decreases |a|
  {
    k := 0;
    if a != [] && a[0] == b[0] {
      k := FirstDifference(a[1..], b[1..]);
      k := k + 1;
      assert a[..k] == [a[0]] + a[1..][..k - 1] && b[..k] == [b[0]] + b[1..][..k - 1];
    }
  }

  lemma {:induction false} DifferenceDecides(a: string, b: string, k: nat)
    requires FallsShortAt(a, b, k)
    ensures Less(a, b)
    decreases k
  {
    if k > 0 {
      assert a[0] == a[..k][0] == b[..k][0] == b[0];
      assert a[1..][..k - 1] == a[..k][1..] && b[1..][..k - 1] == b[..k][1..];
      DifferenceDecides(a[1..], b[1..], k - 1);
    }
  }

  /** Strings are ordered by the first place where they differ, a proper prefix coming first. */
  lemma LessExactly(a: string, b: string)
    ensures Less(a, b) <==> exists k: nat :: FallsShortAt(a, b, k)
  {
    if Less(a, b) {
      var k := FirstDifference(a, b);
    }
    if k: nat :| FallsShortAt(a, b, k) {
      DifferenceDecides(a, b, k);
    }
  }

  lemma LessIrreflexive(a: string)
    ensures !Less(a, a)
  {
  }

  lemma {:induction false} LessTotal(a: string, b: string)
    ensures a == b || Less(a, b) || Less(b, a)
    decreases |a|
  {
    if a != [] && b != [] && a[0] == b[0] {
      LessTotal(a[1..], b[1..]);
      assert a == [a[0]] + a[1..] && b == [b[0]] + b[1..];
    }
  }

  lemma {:induction false} LessTransitive(a: string, b: string, c: string)
    requires Less(a, b) && Less(b, c)
    ensures Less(a, c)
    decreases |a|
  {
    if a != [] && a[0] == b[0] == c[0] {
      LessTransitive(a[1..], b[1..], c[1..]);
    }
  }

  lemma LessAsymmetric(a: string, b: string)
    requires Less(a, b)
    ensures !Less(b, a) && a != b
  {
    LessIrreflexive(a);
    if Less(b, a) {
      LessTransitive(a, b, a);
    }
  }

  ghost predicate Ascending(xs: seq<string>) {
    forall i, j | 0 <= i < j < |xs| :: Less(xs[i], xs[j])
  }

  /** A strictly ascending listing of a set of strings is unique. */
  lemma {:induction false} AscendingUnique(xs: seq<string>, ys: seq<string>)
    requires Ascending(xs) && Ascending(ys)
    requires forall x :: x in xs <==> x in ys
    ensures xs == ys
    decreases |xs|
  {
    assert xs != [] ==> xs[0] in ys;
    assert ys != [] ==> ys[0] in xs;
    if xs != [] {
      var i :| 0 <= i < |xs| && xs[i] == ys[0];
      var j :| 0 <= j < |ys| && ys[j] == xs[0];
      LessIrreflexive(xs[0]);
      if i != 0 && j != 0 {
        LessTransitive(xs[0], ys[0], xs[0]);
      }
      forall x
        ensures x in xs[1..] <==> x in ys[1..]
      {
        TailMembers(xs, x);
        TailMembers(ys, x);
      }
      AscendingUnique(xs[1..], ys[1..]);
      assert xs == [xs[0]] + xs[1..] && ys == [ys[0]] + ys[1..];
    }
  }

  lemma TailMembers(xs: seq<string>, x: string)
    requires xs != [] && Ascending(xs)
    ensures x in xs[1..] <==> x in xs && x != xs[0]
  {
    LessIrreflexive(xs[0]);
    if x in xs[1..] {
      var i :| 0 <= i < |xs| - 1 && xs[1..][i] == x;
      assert Less(xs[0], xs[i + 1]);
    }
    if x in xs && x != xs[0] {
      var i :| 0 <= i < |xs| && xs[i] == x;
      assert xs[1..][i - 1] == x;
    }
  }

  /** Puts a string in its place in an ascending listing, once. */
  function InsertAscending(xs: seq<string>, x: string): (ys: seq<string>)
    requires Ascending(xs)
    ensures Ascending(ys) && forall y :: y in ys <==> y in xs || y == x
    decreases |xs|
  {
    if xs == [] then [x]
    else if x == xs[0] then xs
    else if Less(x, xs[0]) then
      PrependAscending(x, xs);
      [x] + xs
    else
      LessTotal(x, xs[0]);
      var rest := InsertAscending(xs[1..], x);
      assert forall y <- rest :: Less(xs[0], y) by {
        forall y | y in rest
          ensures Less(xs[0], y)
        {
          if y != x {
            TailMembers(xs, y);
            var i :| 0 <= i < |xs| && xs[i] == y;
          }
        }
      }
      ConsMembers(xs);
      [xs[0]] + rest
  }

  lemma PrependAscending(x: string, xs: seq<string>)
    requires xs != [] && Ascending(xs) && Less(x, xs[0])
    ensures Ascending([x] + xs)
  {
    forall i | 0 <= i < |xs|
      ensures Less(x, xs[i])
    {
      if i > 0 {
        LessTransitive(x, xs[0], xs[i]);
      }
    }
  }

  lemma ConsMembers(xs: seq<string>)
    requires xs != []
    ensures forall y :: y in xs <==> y == xs[0] || y in xs[1..]
  {
    assert xs == [xs[0]] + xs[1..];
  }

  /** `sort.Strings` on a list without repetitions. */
  function SortStrings(values: seq<string>): (r: seq<string>)
    ensures Ascending(r) && forall x :: x in r <==> x in values
  {
    if values == [] then []
    else
      assert values == values[..|values| - 1] + [values[|values| - 1]];
      InsertAscending(SortStrings(values[..|values| - 1]), values[|values| - 1])
  }

  /** A key of parts with bars between them determines the part before its first bar. */
  lemma BarSplits(a: string, rest: string, b: string, more: string)
    requires '|' !in a && '|' !in b && a + ['|'] + rest == b + ['|'] + more
    ensures a == b && rest == more
  {
    var s, t := a + ['|'] + rest, b + ['|'] + more;
    assert s[|a|] == '|' && t[|b|] == '|';
    assert forall i | 0 <= i < |a| :: s[i] in a;
    assert forall i | 0 <= i < |b| :: t[i] in b;
    assert |a| == |b|;
    assert a == s[..|a|] && b == t[..|b|] && rest == s[|a| + 1..] && more == t[|b| + 1..];
  }
}
