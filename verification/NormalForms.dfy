/** `NormalizeText`, `QuoteFingerprint` and `Slug`. The normal form of a text is the list of its
    alphanumeric words; the one-pass slug automaton computes the same words joined by dashes. */
module NormalForms {
  import opened Text

  predicate IsAlnum(c: char) {
    'a' <= c <= 'z' || '0' <= c <= '9'
  }

  /** `unicode.ToLower`, exact on every rune whose image is an ASCII letter or digit (the two
      outside ASCII are U+0130 and U+212A); any other rune keeps standing for itself, which the
      normal form cannot tell apart since it turns it into a separator. */
  function LowerChar(c: char): char {
    if 'A' <= c <= 'Z' then (c as int + 32) as char
    else if c == '\U{130}' then 'i'
    else if c == '\U{212A}' then 'k'
    else c
  }

  function ToLower(s: string): (t: string)
    ensures |t| == |s| && forall i | 0 <= i < |s| :: t[i] == LowerChar(s[i])
  {
    seq(|s|, i requires 0 <= i < |s| => LowerChar(s[i]))
  }

  /** What the class `[^a-z0-9\s]` of the regular expression matches. */
  predicate IsPunctuation(c: char) {
    !IsAlnum(c) && c != ' ' && c != '\t' && c != '\n' && c != '\r' && c != '\U{C}'
  }

  /** `ReplaceAllString` of each maximal run of punctuation by one space. */
  function ReplacePunctuation(s: string): string {
    if s == [] then []
    else
      var init, c := s[..|s| - 1], s[|s| - 1];
      if !IsPunctuation(c) then ReplacePunctuation(init) + [c]
      else if init != [] && IsPunctuation(init[|init| - 1]) then ReplacePunctuation(init)
      else ReplacePunctuation(init) + [' ']
  }

  function NormalizeText(input: string): string {
    Join(Fields(ReplacePunctuation(TrimSpace(ToLower(input)))), ' ')
  }

  /** `strings.ReplaceAll(s, " ", "")`. */
  function RemoveSpaces(s: string): string {
    if s == [] then [] else (if s[0] == ' ' then [] else [s[0]]) + RemoveSpaces(s[1..])
  }

  function QuoteFingerprint(input: string): string {
    RemoveSpaces(NormalizeText(input))
  }

  // ---------------------------------------------------------------- the words of a text

  predicate IsSeparator(c: char) {
    !IsAlnum(c)
  }

  /** The reference definition: the maximal alphanumeric runs of the lower-cased text. */
  function Words(input: string): seq<string> {
    SplitBy(IsSeparator, ToLower(input))
  }

  lemma {:induction false} ReplaceKeepsWords(s: string)
    ensures SplitBy(IsSpace, ReplacePunctuation(s)) == SplitBy(IsSeparator, s)
    ensures s == [] <==> ReplacePunctuation(s) == []
    ensures s != [] ==>
              (IsSpace(ReplacePunctuation(s)[|ReplacePunctuation(s)| - 1]) <==> IsSeparator(s[|s| - 1]))
    decreases |s|
  {
    if s != [] {
      var init, c := s[..|s| - 1], s[|s| - 1];
      ReplaceKeepsWords(init);
      var r := ReplacePunctuation(init);
      var d := if IsPunctuation(c) then ' ' else c;
      assert (r + [d])[..|r|] == r;
    }
  }

  /** The regular expression, the trimming and the field splitting together compute the words. */
  lemma NormalFormIsWords(input: string)
    ensures NormalizeText(input) == Join(Words(input), ' ')
    ensures Fields(NormalizeText(input)) == Words(input)
    ensures forall i | 0 <= i < |Words(input)| :: IsWord(IsSeparator, Words(input)[i])
  {
    var lower := ToLower(input);
    ReplaceKeepsWords(TrimSpace(lower));
    SplitTrim(IsSeparator, IsSpace, lower);
    SplitTrim(IsSeparator, IsSpace, TrimLeft(IsSpace, lower));
    forall w | w in Words(input)
      ensures IsWord(IsSpace, w)
    {
      assert IsWord(IsSeparator, w);
    }
    SplitJoin(IsSpace, Words(input), ' ');
  }

  /** Joined words hold nothing but alphanumerics and isolated separators. */
  lemma {:induction false} JoinIsTidy(words: seq<string>, d: char)
    requires forall w <- words :: IsWord(IsSeparator, w)
    requires IsSeparator(d)
    ensures forall i | 0 <= i < |Join(words, d)| :: IsAlnum(Join(words, d)[i]) || Join(words, d)[i] == d
    ensures forall i | 0 < i < |Join(words, d)| :: IsAlnum(Join(words, d)[i - 1]) || IsAlnum(Join(words, d)[i])
    decreases |words|
  {
    if words != [] {
      var init, last := words[..|words| - 1], words[|words| - 1];
      assert last in words;
      assert forall c <- last :: IsAlnum(c);
      JoinIsTidy(init, d);
      if init != [] {
        JoinEnds(IsSeparator, init, d);
      }
    }
  }

  lemma JoinIsLower(words: seq<string>, d: char)
    requires forall w <- words :: IsWord(IsSeparator, w)
    requires IsSeparator(d) && LowerChar(d) == d
    ensures ToLower(Join(words, d)) == Join(words, d)
  {
    JoinIsTidy(words, d);
  }

  /** Words joined by any lower-case separator are recovered. */
  lemma WordsOfJoin(words: seq<string>, d: char)
    requires forall w <- words :: IsWord(IsSeparator, w)
    requires LowerChar(d) == d && IsSeparator(d)
    ensures Words(Join(words, d)) == words
  {
    JoinIsLower(words, d);
    SplitJoin(IsSeparator, words, d);
  }

  /** A normal form is its own normal form, and two texts share one exactly when they have the
      same words. */
  lemma NormalizeIdempotent(input: string)
    ensures NormalizeText(NormalizeText(input)) == NormalizeText(input)
    ensures Words(NormalizeText(input)) == Words(input)
  {
    NormalFormIsWords(input);
    WordsOfJoin(Words(input), ' ');
    NormalFormIsWords(NormalizeText(input));
  }

  lemma SameNormalFormIffSameWords(left: string, right: string)
    ensures NormalizeText(left) == NormalizeText(right) <==> Words(left) == Words(right)
  {
    NormalFormIsWords(left);
    NormalFormIsWords(right);
  }

  // ---------------------------------------------------------------- what a normal form ignores

  const ALPHANUMERICS: set<char> := {
    'a', 'b', 'c', 'd', 'e', 'f', 'g', 'h', 'i', 'j', 'k', 'l', 'm', 'n', 'o', 'p', 'q', 'r', 's', 't', 'u', 'v', 'w',
    'x', 'y', 'z', '0', '1', '2', '3', '4', '5', '6', '7', '8', '9'}

  lemma AlnumExactly(c: char)
    ensures IsAlnum(c) <==> c in ALPHANUMERICS
  {
    if 'a' <= c <= 'z' {
      assert c as int - 97 in {
          0, 1, 2, 3, 4, 5, 6, 7, 8, 9, 10, 11, 12, 13, 14, 15, 16, 17, 18, 19, 20, 21, 22, 23, 24, 25};
    }
    if '0' <= c <= '9' {
      assert c as int - 48 in {0, 1, 2, 3, 4, 5, 6, 7, 8, 9};
    }
  }

  /** A capital ASCII letter and the small one. */
  predicate IsCasePair(c: char, d: char) {
    'A' <= c <= 'Z' && 'a' <= d <= 'z' && d as int - 'a' as int == c as int - 'A' as int
  }

  predicate SameButForCase(s: string, t: string) {
    |s| == |t| && forall i | 0 <= i < |s| :: s[i] == t[i] || IsCasePair(s[i], t[i]) || IsCasePair(t[i], s[i])
  }

  lemma CasePairLowers(c: char, d: char)
    requires c == d || IsCasePair(c, d) || IsCasePair(d, c)
    ensures LowerChar(c) == LowerChar(d)
  {
  }

  /** Texts that differ in the case of ASCII letters only have one normal form. */
  lemma CaseIsIgnored(s: string, t: string)
    requires SameButForCase(s, t)
    ensures NormalizeText(s) == NormalizeText(t)
  {
    forall i | 0 <= i < |s|
      ensures LowerChar(s[i]) == LowerChar(t[i])
    {
      CasePairLowers(s[i], t[i]);
    }
    assert ToLower(s) == ToLower(t);
    NormalFormIsWords(s);
    NormalFormIsWords(t);
  }

  /** Small ASCII letters, digits and the other ASCII runes that are no capitals stay what they are, and
      outside ASCII two runes only become ASCII letters: the dotted capital I and the kelvin sign. */
  lemma LowerExactly(c: char)
    ensures forall d :: IsCasePair(c, d) ==> LowerChar(c) == d
    ensures c < '\U{80}' && !('A' <= c <= 'Z') ==> LowerChar(c) == c
    ensures c >= '\U{80}' ==>
              (IsAlnum(LowerChar(c)) <==> c in {'\U{130}', '\U{212A}'})
              && (c == '\U{130}' ==> LowerChar(c) == 'i') && (c == '\U{212A}' ==> LowerChar(c) == 'k')
  {
  }

  /** Texts that differ only in which runes separate their words have one normal form. */
  predicate SameButForSeparators(s: string, t: string) {
    |s| == |t| && forall i | 0 <= i < |s| ::
      s[i] == t[i] || (LowerChar(s[i]) !in ALPHANUMERICS && LowerChar(t[i]) !in ALPHANUMERICS)
  }

  lemma {:induction false} SplitMasked(sep: char -> bool, s: string, t: string)
    requires |s| == |t| && forall i | 0 <= i < |s| :: s[i] == t[i] || (sep(s[i]) && sep(t[i]))
    ensures SplitBy(sep, s) == SplitBy(sep, t)
    decreases |s|
  {
    if s != [] {
      SplitMasked(sep, s[..|s| - 1], t[..|t| - 1]);
    }
  }

  lemma PunctuationIsIgnored(s: string, t: string)
    requires SameButForSeparators(s, t)
    ensures NormalizeText(s) == NormalizeText(t)
  {
    forall i | 0 <= i < |s|
      ensures ToLower(s)[i] == ToLower(t)[i] || (IsSeparator(ToLower(s)[i]) && IsSeparator(ToLower(t)[i]))
    {
      AlnumExactly(ToLower(s)[i]);
      AlnumExactly(ToLower(t)[i]);
    }
    SplitMasked(IsSeparator, ToLower(s), ToLower(t));
    NormalFormIsWords(s);
    NormalFormIsWords(t);
  }

  /** A run of separators counts as one, and those at an end not at all. */
  lemma SpacingIsIgnored(before: string, c: char, d: char, after: string)
    requires LowerChar(c) !in ALPHANUMERICS && LowerChar(d) !in ALPHANUMERICS
    ensures NormalizeText(before + [c] + [d] + after) == NormalizeText(before + [c] + after)
    ensures NormalizeText([c] + after) == NormalizeText(after) && NormalizeText(before + [c]) == NormalizeText(before)
  {
    AlnumExactly(LowerChar(c));
    AlnumExactly(LowerChar(d));
    LowerOfConcat(before + [c] + [d], after);
    LowerOfConcat(before + [c], [d]);
    LowerOfConcat(before, [c]);
    LowerOfConcat(before + [c], after);
    LowerOfConcat([c], after);
    var x, y := LowerChar(c), LowerChar(d);
    assert ToLower([c]) == [x] && ToLower([d]) == [y];
    SplitSnoc(IsSeparator, ToLower(before) + [x], y);
    SplitSnoc(IsSeparator, ToLower(before), x);
    SplitSuffix(IsSeparator, ToLower(before) + [x] + [y], ToLower(before) + [x], ToLower(after));
    SplitDropsLeading(IsSeparator, [x] + ToLower(after));
    assert ([x] + ToLower(after))[1..] == ToLower(after);
    NormalFormIsWords(before + [c] + [d] + after);
    NormalFormIsWords(before + [c] + after);
    NormalFormIsWords([c] + after);
    NormalFormIsWords(after);
    NormalFormIsWords(before + [c]);
    NormalFormIsWords(before);
  }

  lemma LowerOfConcat(s: string, t: string)
    ensures ToLower(s + t) == ToLower(s) + ToLower(t)
  {
  }

  lemma SplitSameSnoc(sep: char -> bool, s: string, t: string, c: char)
    requires s != [] && t != [] && (sep(s[|s| - 1]) <==> sep(t[|t| - 1])) && SplitBy(sep, s) == SplitBy(sep, t)
    ensures SplitBy(sep, s + [c]) == SplitBy(sep, t + [c])
  {
    SplitSnoc(sep, s, c);
    SplitSnoc(sep, t, c);
  }

  lemma ConcatLast(s: string, suffix: string)
    requires suffix != []
    ensures s + suffix == s + suffix[..|suffix| - 1] + [suffix[|suffix| - 1]]
  {
  }

  /** Behind two texts with the same words that both end in a separator the words go on alike. */
  lemma {:induction false} SplitSuffix(sep: char -> bool, s: string, t: string, suffix: string)
    requires s != [] && t != [] && sep(s[|s| - 1]) && sep(t[|t| - 1]) && SplitBy(sep, s) == SplitBy(sep, t)
    ensures SplitBy(sep, s + suffix) == SplitBy(sep, t + suffix)
    decreases |suffix|
  {
    if suffix == [] {
      assert s + suffix == s && t + suffix == t;
    } else {
      var init := suffix[..|suffix| - 1];
      SplitSuffix(sep, s, t, init);
      ConcatLast(s, suffix);
      ConcatLast(t, suffix);
      SplitSameSnoc(sep, s + init, t + init, suffix[|suffix| - 1]);
    }
  }

  // ---------------------------------------------------------------- fingerprints

  function Concat(words: seq<string>): string {
    if words == [] then [] else words[0] + Concat(words[1..])
  }

  lemma {:induction false} RemoveSpacesConcat(s: string, t: string)
    ensures RemoveSpaces(s + t) == RemoveSpaces(s) + RemoveSpaces(t)
    decreases |s|
  {
    if s == [] {
      assert s + t == t;
    } else {
      RemoveSpacesConcat(s[1..], t);
      assert (s + t)[1..] == s[1..] + t;
    }
  }

  lemma {:induction false} RemoveNoSpaces(s: string)
    requires ' ' !in s
    ensures RemoveSpaces(s) == s
    decreases |s|
  {
    if s != [] {
      RemoveNoSpaces(s[1..]);
      assert s == [s[0]] + s[1..];
    }
  }

  lemma {:induction false} ConcatSnoc(words: seq<string>, last: string)
    ensures Concat(words + [last]) == Concat(words) + last
    decreases |words|
  {
    if words == [] {
      assert words + [last] == [last];
    } else {
      ConcatSnoc(words[1..], last);
      assert (words + [last])[1..] == words[1..] + [last];
    }
  }

  lemma RemoveGap(joined: string, last: string)
    requires ' ' !in last
    ensures RemoveSpaces(joined + [' '] + last) == RemoveSpaces(joined) + last
  {
    RemoveSpacesConcat(joined + [' '], last);
    RemoveSpacesConcat(joined, [' ']);
    RemoveNoSpaces(last);
  }

  lemma {:induction false} RemoveSpacesOfJoin(words: seq<string>)
    requires forall w <- words :: ' ' !in w
    ensures RemoveSpaces(Join(words, ' ')) == Concat(words)
    decreases |words|
  {
    if |words| == 1 {
      RemoveNoSpaces(words[0]);
    } else if words != [] {
      var init, last := words[..|words| - 1], words[|words| - 1];
      RemoveSpacesOfJoin(init);
      RemoveGap(Join(init, ' '), last);
      InitAndLast(words);
      ConcatSnoc(init, last);
    }
  }

  /** The fingerprint is what is left of the words without any spacing. */
  lemma FingerprintIsWords(input: string)
    ensures QuoteFingerprint(input) == Concat(Words(input))
  {
    NormalFormIsWords(input);
    forall w | w in Words(input)
      ensures ' ' !in w
    {
      assert IsWord(IsSeparator, w);
    }
    RemoveSpacesOfJoin(Words(input));
  }

  /** Alphanumerics and single spaces, none of them at an end. */
  ghost predicate IsTidy(n: string) {
    && TrimSpace(n) == n
    && (forall i | 0 <= i < |n| :: IsAlnum(n[i]) || n[i] == ' ')
    && (forall i | 0 < i < |n| :: IsAlnum(n[i - 1]) || IsAlnum(n[i]))
  }

  lemma JoinWordsIsTidy(words: seq<string>)
    requires forall w <- words :: IsWord(IsSeparator, w)
    ensures IsTidy(Join(words, ' '))
  {
    JoinIsTidy(words, ' ');
    if words != [] {
      JoinEnds(IsSeparator, words, ' ');
    }
  }

  lemma NormalFormIsTidy(input: string)
    ensures IsTidy(NormalizeText(input))
  {
    NormalFormIsWords(input);
    JoinWordsIsTidy(Words(input));
  }

  // ---------------------------------------------------------------- slugs

  function DashSpaces(s: string): (t: string)
    ensures |t| == |s| && forall i | 0 <= i < |s| :: t[i] == if s[i] == ' ' then '-' else s[i]
  {
    seq(|s|, i requires 0 <= i < |s| => if s[i] == ' ' then '-' else s[i])
  }

  /** The slug of a text, defined from its normal form. */
  function SlugOf(input: string): string {
    var n := NormalizeText(input);
    if n == "" then "unknown" else DashSpaces(n)
  }

  lemma {:induction false} DashJoin(words: seq<string>)
    requires forall w <- words :: IsWord(IsSeparator, w)
    ensures DashSpaces(Join(words, ' ')) == Join(words, '-')
    decreases |words|
  {
    if words != [] {
      var init, last := words[..|words| - 1], words[|words| - 1];
      assert last in words;
      assert DashSpaces(last) == last by {
        forall i | 0 <= i < |last|
          ensures last[i] != ' '
        {
          assert last[i] in last;
        }
      }
      DashJoin(init);
      assert DashSpaces(Join(init, ' ') + [' '] + last) == DashSpaces(Join(init, ' ')) + ['-'] + DashSpaces(last);
    }
  }

  /** The words a slug is made of. */
  function SlugWords(input: string): seq<string> {
    if Words(input) == [] then ["unknown"] else Words(input)
  }

  lemma UnknownIsWord()
    ensures IsWord(IsSeparator, "unknown")
  {
  }

  lemma SlugWordsAreWords(input: string)
    ensures forall w <- SlugWords(input) :: IsWord(IsSeparator, w)
  {
    UnknownIsWord();
    NormalFormIsWords(input);
  }

  lemma DashedWords(words: seq<string>)
    requires forall w <- words :: IsWord(IsSeparator, w)
    ensures DashSpaces(Join(words, ' ')) == Join(words, '-') && (words != [] ==> Join(words, ' ') != "")
  {
    DashJoin(words);
    if words != [] {
      JoinEnds(IsSeparator, words, ' ');
    }
  }

  lemma SlugIsJoin(input: string)
    ensures SlugOf(input) == Join(SlugWords(input), '-')
  {
    NormalFormIsWords(input);
    DashedWords(Words(input));
  }

  lemma WordsOfSlug(input: string)
    ensures Words(SlugOf(input)) == SlugWords(input)
  {
    SlugIsJoin(input);
    SlugWordsAreWords(input);
    WordsOfJoin(SlugWords(input), '-');
  }

  predicate IsAscii(s: string) {
    forall c <- s :: c < '\U{80}'
  }

  /** A slug is ASCII and its own slug, and its normal form is that of the text it was made from, if
      that has one. */
  lemma SlugIdempotent(input: string)
    ensures IsAscii(SlugOf(input)) && SlugOf(SlugOf(input)) == SlugOf(input)
    ensures NormalizeText(input) != "" ==> NormalizeText(SlugOf(input)) == NormalizeText(input)
  {
    WordsOfSlug(input);
    SlugIsJoin(input);
    SlugIsJoin(SlugOf(input));
    NormalFormIsWords(input);
    NormalFormIsWords(SlugOf(input));
    SlugIsAscii(input);
  }

  lemma SlugIsAscii(input: string)
    ensures IsAscii(SlugOf(input))
  {
    SlugIsJoin(input);
    SlugWordsAreWords(input);
    JoinIsTidy(SlugWords(input), '-');
  }

  // ---------------------------------------------------------------- the slug automaton

  /** `unicode.IsLetter(r) || unicode.IsDigit(r)` on ASCII. */
  predicate IsLetterOrDigit(c: char) {
    'a' <= c <= 'z' || 'A' <= c <= 'Z' || '0' <= c <= '9'
  }

  /** Two Unicode tables are parameters: the lower-case image of a rune, and which runes are separators
      because they are neither letters nor digits. */
  function Lowered(lower: char -> char, s: string): (t: string)
    ensures |t| == |s| && forall i | 0 <= i < |s| :: t[i] == lower(s[i])
  {
    seq(|s|, i requires 0 <= i < |s| => lower(s[i]))
  }

  /** The reference definition: the runs of letters and digits of the lower-cased text, dashed. */
  function SlugBy(lower: char -> char, sep: char -> bool, input: string): string {
    var words := SplitBy(sep, Lowered(lower, TrimSpace(input)));
    if words == [] then "unknown" else Join(words, '-')
  }

  predicate EndsIn(sep: char -> bool, s: string) {
    s != [] && sep(s[|s| - 1])
  }

  /** What the builder of `Slug` holds after reading `s`: the words so far, with a dash for a
      separator before the first and after the last of them. */
  ghost predicate IsBuilt(sep: char -> bool, s: string, built: string) {
    var words := SplitBy(sep, s);
    built == (if s != [] && sep(s[0]) then "-" else "") + Join(words, '-')
             + (if words != [] && EndsIn(sep, s) then "-" else "")
  }

  predicate IsDash(c: char) {
    c == '-'
  }

  lemma JoinSnoc(words: seq<string>, d: char, w: string)
    ensures words != [] ==> Join(words + [w], d) == Join(words, d) + [d] + w
    ensures Join([w], d) == w
  {
    assert (words + [w])[..|words|] == words;
  }

  lemma JoinExtend(words: seq<string>, d: char, c: char)
    requires words != []
    ensures Join(words[..|words| - 1] + [words[|words| - 1] + [c]], d) == Join(words, d) + [c]
  {
    var init, last := words[..|words| - 1], words[|words| - 1];
    JoinSnoc(init, d, last);
    JoinSnoc(init, d, last + [c]);
    assert words == init + [last];
    assert init == [] ==> init + [last + [c]] == [last + [c]];
  }

  lemma BuiltWord(sep: char -> bool, s: string, built: string, c: char)
    requires IsBuilt(sep, s, built) && !sep(c)
    ensures IsBuilt(sep, s + [c], built + [c])
  {
    SplitSnoc(sep, s, c);
    if s == [] || EndsIn(sep, s) {
      NewWordBuilt(sep, s, built, c);
    } else {
      LongerWordBuilt(sep, s, built, c);
    }
  }

  lemma NewWordBuilt(sep: char -> bool, s: string, built: string, c: char)
    requires IsBuilt(sep, s, built) && !sep(c) && (s == [] || EndsIn(sep, s))
    requires SplitBy(sep, s + [c]) == SplitBy(sep, s) + [[c]]
    ensures IsBuilt(sep, s + [c], built + [c])
  {
    var words := SplitBy(sep, s);
    if words == [] {
      FirstWordBuilt(sep, s, built, c);
    } else {
      JoinSnoc(words, '-', [c]);
    }
  }

  lemma FirstWordBuilt(sep: char -> bool, s: string, built: string, c: char)
    requires IsBuilt(sep, s, built) && !sep(c) && SplitBy(sep, s) == []
    requires SplitBy(sep, s + [c]) == [] + [[c]]
    ensures IsBuilt(sep, s + [c], built + [c])
  {
    AllSeparators(sep, s);
    assert SplitBy(sep, s + [c]) == [[c]];
    assert Join([[c]], '-') == [c];
  }

  lemma LongerWordBuilt(sep: char -> bool, s: string, built: string, c: char)
    requires IsBuilt(sep, s, built) && !sep(c) && s != [] && !EndsIn(sep, s)
    requires var words := SplitBy(sep, s);
             SplitBy(sep, s + [c]) == words[..|words| - 1] + [words[|words| - 1] + [c]]
    ensures IsBuilt(sep, s + [c], built + [c])
  {
    JoinExtend(SplitBy(sep, s), '-', c);
  }

  lemma {:induction false} AllSeparators(sep: char -> bool, s: string)
    requires SplitBy(sep, s) == []
    ensures forall c <- s :: sep(c)
    decreases |s|
  {
    if s != [] {
      AllSeparators(sep, s[..|s| - 1]);
    }
  }

  lemma BuiltSeparator(sep: char -> bool, s: string, built: string, c: char)
    requires IsBuilt(sep, s, built) && sep(c)
    ensures IsBuilt(sep, s + [c], if EndsIn(sep, s) then built else built + ['-'])
  {
    var words := SplitBy(sep, s);
    assert (s + [c])[..|s|] == s;
    assert SplitBy(sep, s + [c]) == words;
    if words == [] {
      AllSeparators(sep, s);
    }
  }

  lemma TrimBuilt(sep: char -> bool, s: string, built: string)
    requires IsBuilt(sep, s, built) && sep('-')
    ensures Trim(IsDash, built) == Join(SplitBy(sep, s), '-')
  {
    var words := SplitBy(sep, s);
    if words == [] {
      assert built == "" || built == "-";
      assert built == "-" ==> TrimLeft(IsDash, built) == TrimLeft(IsDash, built[1..]) == "";
    } else {
      var j, tail := Join(words, '-'), if EndsIn(sep, s) then "-" else "";
      JoinEnds(sep, words, '-');
      assert built == j + tail || (built[0] == '-' && built[1..] == j + tail);
      TrimDashes(built, j, tail);
    }
  }

  lemma TrimDashes(built: string, core: string, tail: string)
    requires core != [] && core[0] != '-' && core[|core| - 1] != '-' && (tail == "" || tail == "-")
    requires built == core + tail || (built != [] && built[0] == '-' && built[1..] == core + tail)
    ensures Trim(IsDash, built) == core
  {
    assert TrimLeft(IsDash, core + tail) == core + tail;
    assert TrimRight(IsDash, core) == core;
    assert tail == "-" ==> (core + tail)[..|core + tail| - 1] == core;
    assert tail == "" ==> core + tail == core;
  }

  /** The loop of `Slug` with its flag: one dash for each run of separators. */
  method BuildSlug(sep: char -> bool, text: string) returns (builder: string)
    ensures IsBuilt(sep, text, builder)
  {
    builder := "";
    var lastDash := false;
    for i := 0 to |text|
      invariant lastDash == EndsIn(sep, text[..i])
      invariant IsBuilt(sep, text[..i], builder)
    {
      var r := text[i];
      assert text[..i + 1] == text[..i] + [r];
      if !sep(r) {
        BuiltWord(sep, text[..i], builder, r);
        builder := builder + [r];
        lastDash := false;
      } else {
        BuiltSeparator(sep, text[..i], builder, r);
        if !lastDash {
          builder := builder + ['-'];
          lastDash := true;
        }
      }
    }
    assert text[..|text|] == text;
  }

  /** The one-pass automaton, for any tables under which a dash is a separator. */
  method Slug(lower: char -> char, sep: char -> bool, input: string) returns (slug: string)
    requires sep('-')
    ensures slug == SlugBy(lower, sep, input)
  {
    var text := Lowered(lower, TrimSpace(input));
    var builder := BuildSlug(sep, text);
    TrimBuilt(sep, text, builder);
    slug := Trim(IsDash, builder);
    if SplitBy(sep, text) != [] {
      JoinEnds(sep, SplitBy(sep, text), '-');
    }
    if slug == "" {
      slug := "unknown";
    }
  }

  // ---------------------------------------------------------------- slugs under any tables

  /** Spaces and dashes are separators, lower-casing twice is lower-casing once. */
  ghost predicate SaneTables(lower: char -> char, sep: char -> bool) {
    && sep('-') && lower('-') == '-'
    && (forall c | IsSpace(c) :: sep(c))
    && (forall c :: lower(lower(c)) == lower(c))
    && forall c <- "unknown" :: !sep(c) && lower(c) == c
  }

  ghost predicate IsLowerWord(lower: char -> char, sep: char -> bool, w: string) {
    IsWord(sep, w) && forall c <- w :: lower(c) == c
  }

  lemma {:induction false} WordsAreLower(lower: char -> char, sep: char -> bool, s: string)
    requires forall c <- s :: lower(c) == c
    ensures forall i | 0 <= i < |SplitBy(sep, s)| :: IsLowerWord(lower, sep, SplitBy(sep, s)[i])
    decreases |s|
  {
    if s != [] {
      WordsAreLower(lower, sep, s[..|s| - 1]);
      assert s[|s| - 1] in s;
    }
  }

  lemma {:induction false} JoinIsLowered(lower: char -> char, sep: char -> bool, words: seq<string>)
    requires lower('-') == '-' && forall w <- words :: IsLowerWord(lower, sep, w)
    ensures Lowered(lower, Join(words, '-')) == Join(words, '-')
    decreases |words|
  {
    if words != [] {
      var init, last := words[..|words| - 1], words[|words| - 1];
      assert last in words;
      JoinIsLowered(lower, sep, init);
      LoweredParts(lower, Join(init, '-'), last);
    }
  }

  lemma LoweredParts(lower: char -> char, init: string, last: string)
    requires lower('-') == '-' && Lowered(lower, init) == init && forall c <- last :: lower(c) == c
    ensures Lowered(lower, last) == last && Lowered(lower, init + ['-'] + last) == init + ['-'] + last
  {
    forall i | 0 <= i < |last|
      ensures lower(last[i]) == last[i]
    {
      assert last[i] in last;
    }
  }

  /** Whatever the tables, a slug is its own slug. */
  lemma SlugByIdempotent(lower: char -> char, sep: char -> bool, input: string)
    requires SaneTables(lower, sep)
    ensures SlugBy(lower, sep, SlugBy(lower, sep, input)) == SlugBy(lower, sep, input)
  {
    var text := Lowered(lower, TrimSpace(input));
    var words := if SplitBy(sep, text) == [] then ["unknown"] else SplitBy(sep, text);
    WordsAreLower(lower, sep, text);
    assert IsLowerWord(lower, sep, "unknown");
    forall w | w in words
      ensures IsLowerWord(lower, sep, w)
    {
    }
    assert SlugBy(lower, sep, input) == Join(words, '-');
    SlugOfWords(lower, sep, words);
  }

  lemma SlugOfWords(lower: char -> char, sep: char -> bool, words: seq<string>)
    requires SaneTables(lower, sep) && words != [] && forall w <- words :: IsLowerWord(lower, sep, w)
    ensures SlugBy(lower, sep, Join(words, '-')) == Join(words, '-')
  {
    JoinEnds(sep, words, '-');
    JoinIsLowered(lower, sep, words);
    SplitJoin(sep, words, '-');
  }

  // ---------------------------------------------------------------- slugs of ASCII text

  /** On ASCII the tables are the usual ones. */
  ghost predicate AsciiTables(lower: char -> char, sep: char -> bool) {
    forall c | c < '\U{80}' :: lower(c) == LowerChar(c) && (sep(c) <==> !IsLetterOrDigit(c))
  }

  lemma {:induction false} SplitSame(sep: char -> bool, other: char -> bool, s: string)
    requires forall c <- s :: sep(c) <==> other(c)
    ensures SplitBy(sep, s) == SplitBy(other, s)
    decreases |s|
  {
    if s != [] {
      var init := s[..|s| - 1];
      SplitSame(sep, other, init);
      assert s[|s| - 1] in s && (init != [] ==> init[|init| - 1] in s);
    }
  }

  lemma {:induction false} TrimmedFrom(cut: char -> bool, s: string)
    ensures forall c <- TrimLeft(cut, s) :: c in s
    ensures forall c <- TrimRight(cut, s) :: c in s
    decreases |s|
  {
    if s != [] && cut(s[0]) {
      TrimmedFrom(cut, s[1..]);
    }
  }

  lemma LowerAscii(lower: char -> char, sep: char -> bool, input: string)
    requires IsAscii(input) && AsciiTables(lower, sep)
    ensures Lowered(lower, TrimSpace(input)) == ToLower(TrimSpace(input))
    ensures forall c <- ToLower(TrimSpace(input)) :: sep(c) <==> IsSeparator(c)
  {
    TrimmedFrom(IsSpace, input);
    TrimmedFrom(IsSpace, TrimLeft(IsSpace, input));
    var text := TrimSpace(input);
    assert IsAscii(text);
    forall i | 0 <= i < |text|
      ensures lower(text[i]) == LowerChar(text[i]) && (sep(LowerChar(text[i])) <==> IsSeparator(LowerChar(text[i])))
    {
      assert text[i] in text;
      assert LowerChar(text[i]) < '\U{80}';
    }
  }

  lemma SpaceIsSeparator(c: char)
    requires IsSpace(c)
    ensures IsSeparator(LowerChar(c))
  {
  }

  lemma LowerOfParts(s: string)
    requires s != []
    ensures ToLower(s)[1..] == ToLower(s[1..]) && ToLower(s)[..|s| - 1] == ToLower(s[..|s| - 1])
  {
  }

  lemma {:induction false} LowerTrimLeft(s: string)
    ensures SplitBy(IsSeparator, ToLower(TrimLeft(IsSpace, s))) == SplitBy(IsSeparator, ToLower(s))
    decreases |s|
  {
    if s != [] && IsSpace(s[0]) {
      LowerTrimLeft(s[1..]);
      SpaceIsSeparator(s[0]);
      LowerOfParts(s);
      SplitDropsLeading(IsSeparator, ToLower(s));
    }
  }

  lemma {:induction false} LowerTrimRight(s: string)
    ensures SplitBy(IsSeparator, ToLower(TrimRight(IsSpace, s))) == SplitBy(IsSeparator, ToLower(s))
    decreases |s|
  {
    if s != [] && IsSpace(s[|s| - 1]) {
      LowerTrimRight(s[..|s| - 1]);
      SpaceIsSeparator(s[|s| - 1]);
      LowerOfParts(s);
      SplitDropsTrailing(IsSeparator, ToLower(s));
    }
  }

  /** `Slug` trims before lower-casing and `NormalizeText` after: the words agree. */
  lemma LowerOfTrim(input: string)
    ensures SplitBy(IsSeparator, ToLower(TrimSpace(input))) == Words(input)
  {
    LowerTrimLeft(input);
    LowerTrimRight(TrimLeft(IsSpace, input));
  }

  /** On ASCII input the automaton computes the normal form with dashes for spaces, or `unknown`. */
  lemma SlugOfAscii(lower: char -> char, sep: char -> bool, input: string)
    requires IsAscii(input) && AsciiTables(lower, sep)
    ensures SlugBy(lower, sep, input) == SlugOf(input)
  {
    LowerAscii(lower, sep, input);
    SplitSame(sep, IsSeparator, ToLower(TrimSpace(input)));
    LowerOfTrim(input);
    SlugIsJoin(input);
  }
}
