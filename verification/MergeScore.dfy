/** `tokenOverlap`, `SimilarityScore` and `QuoteMergeScore`: when two quote texts count as one. */
module MergeScore {
  import opened Text
  import opened NormalForms
  import EditDistance

  function MaxInt(a: int, b: int): int {
    if a > b then a else b
  }

  /** How many tokens the two lists share, counted with multiplicity. */
  function Matches(left: seq<string>, right: seq<string>): nat {
    |multiset(left) * multiset(right)|
  }

  /** The share of common tokens in the longer list. */
  function Overlap(left: seq<string>, right: seq<string>): real {
    if left == [] || right == [] then 0.0
    else Matches(left, right) as real / MaxInt(|left|, |right|) as real
  }

  function CountOf(counts: map<string, nat>, token: string): nat {
    if token in counts then counts[token] else 0
  }

  function Excess(have: nat, taken: nat): nat {
    if have > taken then have - taken else 0
  }

  /** What is left of the counts once the tokens seen so far were taken. */
  ghost predicate Remaining(counts: map<string, nat>, have: multiset<string>, seen: multiset<string>) {
    forall t :: CountOf(counts, t) == Excess(have[t], seen[t])
  }

  lemma TakeStep(counts: map<string, nat>, have: multiset<string>, seen: multiset<string>, token: string)
    requires Remaining(counts, have, seen)
    ensures var more := seen + multiset{token};
            if CountOf(counts, token) > 0 then
              Remaining(counts[token := CountOf(counts, token) - 1], have, more) && |have * more| == |have * seen| + 1
            else Remaining(counts, have, more) && |have * more| == |have * seen|
  {
    var more := seen + multiset{token};
    if CountOf(counts, token) > 0 {
      assert have * more == have * seen + multiset{token};
    } else {
      assert have * more == have * seen;
    }
  }

  lemma PrefixBag(tokens: seq<string>, i: nat)
    requires i < |tokens|
    ensures multiset(tokens[..i + 1]) == multiset(tokens[..i]) + multiset{tokens[i]}
  {
    assert tokens[..i + 1] == tokens[..i] + [tokens[i]];
  }

  method CountTokens(tokens: seq<string>) returns (counts: map<string, nat>)
    ensures forall t :: CountOf(counts, t) == multiset(tokens)[t]
  {
    counts := map[];
    ghost var have: multiset<string> := multiset{};
    for i := 0 to |tokens|
      invariant have == multiset(tokens[..i])
      invariant forall t :: CountOf(counts, t) == have[t]
    {
      PrefixBag(tokens, i);
      counts := counts[tokens[i] := CountOf(counts, tokens[i]) + 1];
      have := have + multiset{tokens[i]};
    }
    assert tokens[..|tokens|] == tokens;
  }

  /** The decrementing count loop. */
  method TokenOverlap(left: seq<string>, right: seq<string>) returns (overlap: real)
    ensures overlap == Overlap(left, right)
  {
    if |left| == 0 || |right| == 0 {
      return 0.0;
    }
    var counts: map<string, nat> := CountTokens(left);
    var matches := 0;
    ghost var have, seen: multiset<string> := multiset(left), multiset{};
    for i := 0 to |right|
      invariant seen == multiset(right[..i]) && matches == |have * seen| && Remaining(counts, have, seen)
    {
      var token := right[i];
      PrefixBag(right, i);
      TakeStep(counts, have, seen, token);
      if CountOf(counts, token) > 0 {
        counts := counts[token := CountOf(counts, token) - 1];
        matches := matches + 1;
      }
      seen := seen + multiset{token};
    }
    assert right[..|right|] == right;
    var denominator := |left|;
    if |right| > denominator {
      denominator := |right|;
    }
    overlap := matches as real / denominator as real;
  }

  lemma SubMultisetSize(a: multiset<string>, b: multiset<string>)
    requires a <= b
    ensures |a| <= |b| && (|a| == |b| ==> a == b)
  {
    assert b == a + (b - a);
    if |a| == |b| {
      assert |b - a| == 0;
    }
  }

  /** Symmetric, within [0, 1], and 1 exactly on equal non-empty multisets of tokens. */
  lemma OverlapMeaning(left: seq<string>, right: seq<string>)
    ensures Overlap(left, right) == Overlap(right, left)
    ensures 0.0 <= Overlap(left, right) <= 1.0
    ensures Overlap(left, right) == 1.0 <==> left != [] && multiset(left) == multiset(right)
  {
    assert multiset(left) * multiset(right) == multiset(right) * multiset(left);
    MatchesBounds(left, right);
    assert |multiset(left)| == |left| && |multiset(right)| == |right|;
    if left != [] && right != [] {
      RatioBounds(Matches(left, right), MaxInt(|left|, |right|));
    }
  }

  lemma MatchesBounds(left: seq<string>, right: seq<string>)
    ensures Matches(left, right) <= |left| && Matches(left, right) <= |right|
    ensures Matches(left, right) == MaxInt(|left|, |right|) <==> multiset(left) == multiset(right)
  {
    var a, b := multiset(left), multiset(right);
    assert |a| == |left| && |b| == |right|;
    SubMultisetSize(a * b, a);
    SubMultisetSize(a * b, b);
    if a == b {
      assert a * b == a;
    }
  }

  lemma RatioBounds(m: nat, n: nat)
    requires m <= n && n > 0
    ensures 0.0 <= m as real / n as real <= 1.0
    ensures m as real / n as real == 1.0 <==> m == n
  {
    assert m as real <= n as real;
  }

  /** `strings.Contains`. */
  predicate Contains(s: string, part: string) {
    exists i | 0 <= i <= |s| :: part <= s[i..]
  }

  /** `SimilarityScore`, given the normal forms it computes first. */
  function Similarity(query: string, candidate: string): int {
    if query == candidate then 100
    else if Contains(candidate, query) then 90
    else if Contains(query, candidate) then 80
    else FromDistance(EditDistance.Distance(query, candidate))
  }

  function FromDistance(distance: nat): int {
    if distance <= 1 then 75 else if distance == 2 then 60 else if distance == 3 then 45 else 0
  }

  /** `QuoteMergeScore` raises the similarity when the two token lists nearly coincide. */
  function Raised(score: int, overlap: real, leftTokens: nat, rightTokens: nat): int {
    if overlap >= 0.95 then MaxInt(score, 95)
    else if overlap >= 0.85 && -1 <= leftTokens - rightTokens <= 1 then MaxInt(score, 90)
    else score
  }

  /** The score of two normal forms and their spaceless forms. */
  function MergeScoreOf(left: string, right: string, leftPrint: string, rightPrint: string): int {
    if left == right then 100
    else if leftPrint == rightPrint then 98
    else
      var leftTokens, rightTokens := Fields(left), Fields(right);
      Raised(Similarity(left, right), Overlap(leftTokens, rightTokens), |leftTokens|, |rightTokens|)
  }

  function QuoteMergeScore(left: string, right: string): int {
    MergeScoreOf(NormalizeText(left), NormalizeText(right), QuoteFingerprint(left), QuoteFingerprint(right))
  }

  lemma SimilarityRange(left: string, right: string)
    ensures left != right ==> 0 <= Similarity(left, right) <= 90
  {
  }

  lemma RaisedRange(score: int, overlap: real, leftTokens: nat, rightTokens: nat)
    ensures 0 <= score <= 90 ==> 0 <= Raised(score, overlap, leftTokens, rightTokens) <= 95
  {
  }

  lemma MergeScoreRange(left: string, right: string, leftPrint: string, rightPrint: string)
    ensures 0 <= MergeScoreOf(left, right, leftPrint, rightPrint) <= 100
    ensures MergeScoreOf(left, right, leftPrint, rightPrint) == 100 <==> left == right
    ensures MergeScoreOf(left, right, leftPrint, rightPrint) == 98 <==> left != right && leftPrint == rightPrint
  {
    SimilarityRange(left, right);
    RaisedRange(Similarity(left, right), Overlap(Fields(left), Fields(right)), |Fields(left)|, |Fields(right)|);
  }

  /** A merge score of 100 means equal normal forms, hence equal word lists, and nothing else does;
      98 means the same letters under another spacing. */
  lemma MergeScoreMeaning(left: string, right: string)
    ensures 0 <= QuoteMergeScore(left, right) <= 100
    ensures QuoteMergeScore(left, right) == 100 <==> Words(left) == Words(right)
    ensures QuoteMergeScore(left, right) == 98 <==>
            Words(left) != Words(right) && QuoteFingerprint(left) == QuoteFingerprint(right)
  {
    SameNormalFormIffSameWords(left, right);
    MergeScoreRange(NormalizeText(left), NormalizeText(right), QuoteFingerprint(left), QuoteFingerprint(right));
  }

  // ---------------------------------------------------------------- every score

  /** `part` occurs in `s`. */
  ghost predicate Occurs(part: string, s: string) {
    exists before: string, after: string :: s == before + part + after
  }

  lemma ContainsExactly(s: string, part: string)
    ensures Contains(s, part) <==> Occurs(part, s)
  {
    if i :| 0 <= i <= |s| && part <= s[i..] {
      assert s == s[..i] + part + s[i + |part|..];
    }
    if before: string, after: string :| s == before + part + after {
      assert s[|before|..] == part + after;
    }
  }

  /** `shared` of the tokens of the longer list are at least `percent` of it. */
  ghost predicate ShareAtLeast(left: seq<string>, right: seq<string>, percent: nat) {
    && left != [] && right != []
    && |multiset(left) * multiset(right)| * 100 >= |left| * percent
    && |multiset(left) * multiset(right)| * 100 >= |right| * percent
  }

  lemma OverlapAtLeast(left: seq<string>, right: seq<string>)
    ensures Overlap(left, right) >= 0.95 <==> ShareAtLeast(left, right, 95)
    ensures Overlap(left, right) >= 0.85 <==> ShareAtLeast(left, right, 85)
  {
    if left != [] && right != [] {
      RatioAtLeast(Matches(left, right), MaxInt(|left|, |right|), 95);
      RatioAtLeast(Matches(left, right), MaxInt(|left|, |right|), 85);
    }
  }

  lemma RatioAtLeast(m: nat, n: nat, percent: nat)
    requires n > 0
    ensures m as real / n as real >= percent as real / 100.0 <==> m * 100 >= n * percent
  {
    var r := m as real / n as real;
    assert r * n as real == m as real;
    assert (m * 100) as real == m as real * 100.0 && (n * percent) as real == n as real * percent as real;
    if r >= percent as real / 100.0 {
      assert m as real >= percent as real / 100.0 * n as real;
    } else {
      assert m as real < percent as real / 100.0 * n as real;
    }
  }

  /** The words of the two texts differ in number by at most one. */
  predicate NearlyAsLong(left: seq<string>, right: seq<string>) {
    |left| <= |right| + 1 && |right| <= |left| + 1
  }

  /** Scores 100, 98 and 95 to 0 of two texts in terms of their words: the reference for the branches. */
  ghost predicate HasScore(left: string, right: string, score: int) {
    var l, r := NormalizeText(left), NormalizeText(right);
    var u, v := Words(left), Words(right);
    var d := EditDistance.Distance(l, r);
    if u == v then score == 100
    else if Concat(u) == Concat(v) then score == 98
    else if ShareAtLeast(u, v, 95) then score == 95
    else if Occurs(l, r) || (ShareAtLeast(u, v, 85) && NearlyAsLong(u, v)) then score == 90
    else if Occurs(r, l) then score == 80
    else if d == 1 then score == 75
    else if d == 2 then score == 60
    else if d == 3 then score == 45
    else score == 0
  }

  lemma MergeScoreCases(left: string, right: string, leftPrint: string, rightPrint: string)
    requires left != right && leftPrint != rightPrint
    ensures var u, v := Fields(left), Fields(right);
            var d := EditDistance.Distance(left, right);
            MergeScoreOf(left, right, leftPrint, rightPrint) ==
            if ShareAtLeast(u, v, 95) then 95
            else if Occurs(left, right) || (ShareAtLeast(u, v, 85) && NearlyAsLong(u, v)) then 90
            else if Occurs(right, left) then 80
            else if d == 1 then 75
            else if d == 2 then 60
            else if d == 3 then 45
            else 0
  {
    OverlapAtLeast(Fields(left), Fields(right));
    ContainsExactly(right, left);
    ContainsExactly(left, right);
    EditDistance.DistanceZeroIffEqual(left, right);
  }

  /** The score of any two texts. */
  lemma MergeScoreExactly(left: string, right: string)
    ensures HasScore(left, right, QuoteMergeScore(left, right))
  {
    NormalFormIsWords(left);
    NormalFormIsWords(right);
    FingerprintIsWords(left);
    FingerprintIsWords(right);
    SameNormalFormIffSameWords(left, right);
    if Words(left) != Words(right) && Concat(Words(left)) != Concat(Words(right)) {
      MergeScoreCases(NormalizeText(left), NormalizeText(right), QuoteFingerprint(left), QuoteFingerprint(right));
    }
  }

  /** Which texts count as one quote: those with the same words, or the same letters under another spacing,
      or where the first occurs in the second, or that share 95 percent of their words, or 85 percent
      when they are as long up to one word. */
  lemma MergesExactly(left: string, right: string)
    ensures QuoteMergeScore(left, right) >= 90 <==>
            || Words(left) == Words(right)
            || Concat(Words(left)) == Concat(Words(right))
            || Occurs(NormalizeText(left), NormalizeText(right))
            || ShareAtLeast(Words(left), Words(right), 95)
            || (ShareAtLeast(Words(left), Words(right), 85) && NearlyAsLong(Words(left), Words(right)))
  {
    MergeScoreExactly(left, right);
  }

  lemma FullOverlapMerges(left: string, right: string, leftPrint: string, rightPrint: string)
    requires left == right || Overlap(Fields(left), Fields(right)) == 1.0
    ensures MergeScoreOf(left, right, leftPrint, rightPrint) >= 95
  {
  }

  /** Texts whose words are a permutation of each other always reach the merge threshold of 90. */
  lemma SameBagOfWordsMerges(left: string, right: string)
    requires multiset(Words(left)) == multiset(Words(right))
    ensures QuoteMergeScore(left, right) >= 95
  {
    NormalFormIsWords(left);
    NormalFormIsWords(right);
    OverlapMeaning(Words(left), Words(right));
    EmptyBag(Words(left), Words(right));
    FullOverlapMerges(NormalizeText(left), NormalizeText(right), QuoteFingerprint(left), QuoteFingerprint(right));
  }

  lemma EmptyBag(a: seq<string>, b: seq<string>)
    requires multiset(a) == multiset(b)
    ensures a == [] <==> b == []
  {
    assert |multiset(a)| == |a| && |multiset(b)| == |b|;
  }
}
