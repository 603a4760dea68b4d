/** `ftsQuery` and `ftsEscape`: a printer of FTS5 prefix phrases, with the parser that inverts it. */
module FtsQuery {
  import opened Text

  /** `strings.ReplaceAll(s, "\"", "\"\"")`. */
  function DoubleQuotes(s: string): string {
    if s == [] then [] else (if s[0] == '"' then "\"\"" else [s[0]]) + DoubleQuotes(s[1..])
  }

  function Escape(term: string): string {
    var trimmed := TrimSpace(term);
    if trimmed == "" then "" else "\"" + DoubleQuotes(trimmed) + "\"*"
  }

  /** The query `ftsQuery` builds: the escaped fields, one space apart. */
  function Query(tokens: seq<string>): string {
    if tokens == [] then []
    else
      var gap := if |tokens| == 1 then "" else " ";
      Query(tokens[..|tokens| - 1]) + gap + Escape(tokens[|tokens| - 1])
  }

  method BuildQuery(input: string) returns (query: string)
    ensures query == Query(Fields(input))
  {
    var tokens := Fields(input);
    var terms: seq<string> := [];
    for i := 0 to |tokens|
      invariant |terms| == i && Join(terms, ' ') == Query(tokens[..i])
    {
      FieldIsTrimmed(input, i);
      QueryStep(tokens, i, terms);
      var term := Escape(tokens[i]);
      if term == "" {
        continue;
      }
      terms := terms + [term];
    }
    assert tokens[..|tokens|] == tokens;
    query := Join(terms, ' ');
  }

  lemma QueryStep(tokens: seq<string>, i: nat, terms: seq<string>)
    requires i < |tokens| && |terms| == i && Join(terms, ' ') == Query(tokens[..i])
    ensures Join(terms + [Escape(tokens[i])], ' ') == Query(tokens[..i + 1])
  {
    assert tokens[..i + 1][..i] == tokens[..i];
    assert (terms + [Escape(tokens[i])])[..i] == terms;
  }

  lemma FieldIsTrimmed(input: string, i: nat)
    requires i < |Fields(input)|
    ensures TrimSpace(Fields(input)[i]) == Fields(input)[i] != []
  {
    var w := Fields(input)[i];
    assert IsWord(IsSpace, w);
    assert w[0] in w && w[|w| - 1] in w;
  }

  // ---------------------------------------------------------------- the inverse

  /** Reads the inside of a quoted string up to its closing quote, a doubled quote standing for
      one; the rest starts behind the closing quote. */
  function ReadQuoted(s: string): (r: Option<(string, string)>)
    ensures r.Some? ==> |r.value.1| < |s|
  {
    if s == [] then None
    else if s[0] != '"' then
      match ReadQuoted(s[1..])
      case None => None
      case Some((text, rest)) => Some(([s[0]] + text, rest))
    else if |s| > 1 && s[1] == '"' then
      match ReadQuoted(s[2..])
      case None => None
      case Some((text, rest)) => Some((['"'] + text, rest))
    else Some(("", s[1..]))
  }

  /** A query in which every term is a quoted prefix phrase, as section 3.1 of the SQLite FTS5
      documentation writes strings: blanks between terms, and no bare token anywhere. */
  function Parse(s: string): Option<seq<string>>
    decreases |s|
  {
    if s == [] then Some([])
    else if s[0] == ' ' then Parse(s[1..])
    else if s[0] != '"' then None
    else
      match ReadQuoted(s[1..])
      case None => None
      case Some((text, rest)) =>
        if rest == [] || rest[0] != '*' then None
        else
          match Parse(rest[1..])
          case None => None
          case Some(terms) => Some([text] + terms)
  }

  lemma {:induction false} ReadDoubled(text: string, rest: string)
    requires rest == [] || rest[0] != '"'
    ensures ReadQuoted(DoubleQuotes(text) + ['"'] + rest) == Some((text, rest))
    decreases |text|
  {
    var s := DoubleQuotes(text) + ['"'] + rest;
    if text == [] {
      assert s == ['"'] + rest;
      assert s[1..] == rest;
    } else {
      ReadDoubled(text[1..], rest);
      var tail := DoubleQuotes(text[1..]) + ['"'] + rest;
      assert text == [text[0]] + text[1..];
      if text[0] == '"' {
        assert s == ['"', '"'] + tail;
        assert s[2..] == tail;
      } else {
        assert s == [text[0]] + tail;
        assert s[1..] == tail;
      }
    }
  }

  lemma ParsePhrase(quoted: string, token: string, rest: string)
    requires ReadQuoted(quoted) == Some((token, ['*'] + rest))
    ensures Parse(['"'] + quoted)
         == match Parse(rest) case None => None case Some(terms) => Some([token] + terms)
  {
    var s := ['"'] + quoted;
    assert s[1..] == quoted;
    assert (['*'] + rest)[1..] == rest;
  }

  /** A printed phrase in front of `rest`, taken apart as the parser does. */
  lemma EscapeLayout(token: string, rest: string)
    requires TrimSpace(token) == token != []
    ensures Escape(token) + rest == ['"'] + (DoubleQuotes(token) + ['"'] + (['*'] + rest))
  {
  }

  lemma ParseTerm(token: string, rest: string)
    requires TrimSpace(token) == token != []
    ensures Parse(Escape(token) + rest)
         == match Parse(rest) case None => None case Some(terms) => Some([token] + terms)
  {
    EscapeLayout(token, rest);
    ReadDoubled(token, ['*'] + rest);
    ParsePhrase(DoubleQuotes(token) + ['"'] + (['*'] + rest), token, rest);
  }

  lemma Regroup(a: string, b: string, c: string, d: string)
    ensures a + b + c + d == a + (b + (c + d))
  {
  }

  lemma RegroupTerms(tokens: seq<string>, terms: seq<string>)
    requires tokens != []
    ensures tokens[..|tokens| - 1] + ([tokens[|tokens| - 1]] + terms) == tokens + terms
  {
  }

  lemma QueryLast(tokens: seq<string>, gap: string, rest: string)
    requires tokens != [] && gap == if |tokens| == 1 then "" else " "
    ensures Query(tokens) + rest == Query(tokens[..|tokens| - 1]) + (gap + (Escape(tokens[|tokens| - 1]) + rest))
  {
    Regroup(Query(tokens[..|tokens| - 1]), gap, Escape(tokens[|tokens| - 1]), rest);
  }

  lemma ParseGapTerm(gap: string, token: string, rest: string, terms: seq<string>)
    requires gap == "" || gap == " "
    requires TrimSpace(token) == token != []
    requires Parse(rest) == Some(terms)
    ensures Parse(gap + (Escape(token) + rest)) == Some([token] + terms)
  {
    ParseTerm(token, rest);
    var s := Escape(token) + rest;
    assert gap == "" ==> gap + s == s;
    assert gap == " " ==> (gap + s)[1..] == s;
  }

  lemma {:induction false} ParseAppend(tokens: seq<string>, rest: string, terms: seq<string>)
    requires forall t <- tokens :: TrimSpace(t) == t != []
    requires Parse(rest) == Some(terms)
    ensures Parse(Query(tokens) + rest) == Some(tokens + terms)
    decreases |tokens|
  {
    if tokens == [] {
      assert Query(tokens) + rest == rest && tokens + terms == terms;
    } else {
      var init, last := tokens[..|tokens| - 1], tokens[|tokens| - 1];
      assert last in tokens;
      var gap := if |tokens| == 1 then "" else " ";
      ParseGapTerm(gap, last, rest, terms);
      QueryLast(tokens, gap, rest);
      ParseAppend(init, gap + (Escape(last) + rest), [last] + terms);
      RegroupTerms(tokens, terms);
    }
  }

  /** The round trip: parsing a built query gives back exactly the fields of the input. */
  lemma QueryRoundTrip(input: string)
    ensures Parse(Query(Fields(input))) == Some(Fields(input))
  {
    var tokens := Fields(input);
    forall t | t in tokens
      ensures TrimSpace(t) == t != []
    {
      var i :| 0 <= i < |tokens| && tokens[i] == t;
      FieldIsTrimmed(input, i);
    }
    ParseAppend(tokens, "", []);
    assert Query(tokens) + "" == Query(tokens) && tokens + [] == tokens;
  }

  /** The parser refuses a bare token, and a quoted phrase without its star. */
  lemma OnlyPrefixPhrases(s: string, text: string, rest: string)
    ensures s != [] && s[0] != ' ' && s[0] != '"' ==> Parse(s) == None
    ensures (rest == [] || (rest[0] != '*' && rest[0] != '"')) ==>
              Parse(['"'] + (DoubleQuotes(text) + ['"'] + rest)) == None
  {
    if rest == [] || (rest[0] != '*' && rest[0] != '"') {
      ReadDoubled(text, rest);
      var quoted := DoubleQuotes(text) + ['"'] + rest;
      assert (['"'] + quoted)[1..] == quoted;
    }
  }

  /** Two inputs build the same query only when they have the same fields. */
  lemma QueryInjective(left: string, right: string)
    ensures Query(Fields(left)) == Query(Fields(right)) <==> Fields(left) == Fields(right)
  {
    QueryRoundTrip(left);
    QueryRoundTrip(right);
  }
}
