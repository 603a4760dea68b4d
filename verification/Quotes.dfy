/** `UpsertQuote`: the near-duplicate search, the merge computed in Go, the guarded write in SQL, and
    what every catalog built by them keeps. */
module Quotes {
  import opened Text
  import opened NormalForms
  import opened MergeScore

  /** A provenance status. Any other string is possible in a request, none in a stored row. */
  datatype Status =
    | Verified | SourceAttributed | ProviderAttributed | Ambiguous | NeedsReview
    | LegacyUnverified
    | OtherStatus(name: string)

  /** Confidence scores lie between 0 and 1. */
  type Confidence = c: real | 0.0 <= c <= 1.0 witness 0.0

  datatype Source = Source(sourceID: string, provider: string, url: string)

  datatype Quote = Quote(quoteID: string, text: string, artistID: string, sourceID: string, status: Status,
                         confidence: Confidence, origin: string, tags: seq<string>, evidence: seq<string>,
                         source: Option<Source>)

  /** A row of `quotes` with its rows of `quote_tags` and `quote_evidence`. */
  datatype Row = Row(text: string, normalizedText: string, artistID: string, sourceID: string, status: Status,
                     confidence: Confidence, origin: string, tags: seq<string>, evidence: seq<string>)

  // ---------------------------------------------------------------- ranks

  /** `provenanceRank`. */
  function Rank(status: Status): nat {
    match status
    case Verified => 5
    case SourceAttributed => 4
    case ProviderAttributed => 3
    case Ambiguous => 2
    case NeedsReview => 1
    case LegacyUnverified => 1
    case OtherStatus(_) => 0
  }

  /** The CASE expression of the SQL guard; it does not know the legacy status. */
  function SqlRank(status: Status): nat {
    if status == LegacyUnverified then 0 else Rank(status)
  }

  /** The CHECK constraint on the column. */
  predicate Allowed(status: Status) {
    !status.LegacyUnverified? && !status.OtherStatus?
  }

  /** The stored statuses from the weakest to the strongest. */
  const LADDER: seq<Status> := [NeedsReview, Ambiguous, ProviderAttributed, SourceAttributed, Verified]

  /** Exactly the statuses of the ladder are stored, and both rankings follow it. */
  lemma LadderExactly(i: nat, j: nat)
    requires i < 5 && j < 5
    ensures (Rank(LADDER[i]) < Rank(LADDER[j]) <==> i < j) && (SqlRank(LADDER[i]) < SqlRank(LADDER[j]) <==> i < j)
    ensures forall s :: Allowed(s) <==> s in LADDER
    ensures Rank(LegacyUnverified) == Rank(NeedsReview) && SqlRank(LegacyUnverified) < SqlRank(NeedsReview)
    ensures forall name :: Rank(OtherStatus(name)) < Rank(NeedsReview)
  {
    assert LADDER[0] == NeedsReview && LADDER[1] == Ambiguous && LADDER[2] == ProviderAttributed
        && LADDER[3] == SourceAttributed && LADDER[4] == Verified;
  }

  /** Whole percentage points of confidence, as the conversion to an integer leaves them. */
  function Points(c: Confidence): int {
    (c * 100.0).Floor
  }

  lemma PointsExactly(c: Confidence)
    ensures Points(c) as real <= c * 100.0 < Points(c) as real + 1.0
  {
  }

  /** `quotePriority`: the rank and the confidence packed into one number. */
  function Priority(status: Status, confidence: Confidence): int {
    Rank(status) * 1000 + Points(confidence)
  }

  /** The packing is lexicographic: a higher rank always wins. */
  lemma PriorityIsLexicographic(s: Status, c: Confidence, t: Status, d: Confidence)
    ensures Priority(s, c) > Priority(t, d) <==>
            Rank(s) > Rank(t) || (Rank(s) == Rank(t) && Points(c) > Points(d))
  {
    assert 0 <= Points(c) <= 100 && 0 <= Points(d) <= 100;
  }

  function MaxConfidence(c: Confidence, d: Confidence): Confidence {
    if c > d then c else d
  }

  // ---------------------------------------------------------------- the merge

  function CleanSet(values: seq<string>): set<string> {
    set v | v in values && !IsBlank(v) :: TrimSpace(v)
  }

  lemma CleanExactly(values: seq<string>, x: string)
    ensures x in CleanSet(values) <==> x != "" && exists v <- values :: TrimSpace(v) == x
  {
  }

  /** `dedupeStrings`: the trimmed values that are not blank, each once, in order. */
  function Dedupe(values: seq<string>): (r: seq<string>)
    ensures Ascending(r) && forall x :: x in r <==> x in CleanSet(values)
  {
    if values == [] then []
    else
      var init, last := values[..|values| - 1], values[|values| - 1];
      assert values == init + [last];
      if IsBlank(last) then Dedupe(init) else InsertAscending(Dedupe(init), TrimSpace(last))
  }

  /** The loop of `dedupeStrings` and the sort behind it. */
  method DedupeStrings(values: seq<string>) returns (r: seq<string>)
    ensures r == Dedupe(values) && Ascending(r)
    ensures forall x :: x in r <==> x != "" && exists v <- values :: TrimSpace(v) == x
  {
    var seen: set<string> := {};
    var deduped: seq<string> := [];
    for i := 0 to |values|
      invariant seen == CleanSet(values[..i])
      invariant forall x :: x in deduped <==> x in seen
    {
      assert values[..i + 1] == values[..i] + [values[i]];
      var trimmed := TrimSpace(values[i]);
      if trimmed == "" || trimmed in seen {
        continue;
      }
      seen := seen + {trimmed};
      deduped := deduped + [trimmed];
    }
    assert values[..|values|] == values;
    r := SortStrings(deduped);
    AscendingUnique(r, Dedupe(values));
    forall x
      ensures x in r <==> x != "" && exists v <- values :: TrimSpace(v) == x
    {
      CleanExactly(values, x);
    }
  }

  /** The number of bytes of the UTF-8 encoding, which is what Go's `len` counts. */
  function ByteLength(s: string): nat {
    if s == [] then 0
    else
      (if s[0] < '\U{80}' then 1 else if s[0] < '\U{800}' then 2 else if s[0] < '\U{10000}' then 3 else 4)
      + ByteLength(s[1..])
  }

  lemma {:induction false} ByteLengthAdds(s: string, t: string)
    ensures ByteLength(s + t) == ByteLength(s) + ByteLength(t)
    decreases |s|
  {
    if s == [] {
      assert s + t == t;
    } else {
      ByteLengthAdds(s[1..], t);
      assert (s + t)[1..] == s[1..] + t;
    }
  }

  /** The code points that an encoding of `n` bytes has room for: 7, 11, 16 and 21 bits. */
  predicate FitsIn(c: char, n: int) {
    if n <= 0 then false
    else if n == 1 then c as int < 0x80
    else if n == 2 then c as int < 0x800
    else if n == 3 then c as int < 0x1_0000
    else c as int < 0x20_0000
  }

  /** Every rune takes the fewest bytes it fits in. */
  lemma ByteLengthOfRune(c: char)
    ensures 1 <= ByteLength([c]) <= 4 && FitsIn(c, ByteLength([c])) && !FitsIn(c, ByteLength([c]) - 1)
  {
    assert [c][1..] == [];
  }

  lemma {:induction false} ByteLengthOfAscii(s: string)
    requires IsAscii(s)
    ensures ByteLength(s) == |s|
    decreases |s|
  {
    if s != [] {
      assert s[0] in s && forall c <- s[1..] :: c in s;
      ByteLengthOfAscii(s[1..]);
    }
  }

  function PreferLonger(left: string, right: string): string {
    if ByteLength(TrimSpace(right)) > ByteLength(TrimSpace(left)) then right
    else if !IsBlank(left) then left
    else right
  }

  function PreferredSource(first: Option<Source>, second: Option<Source>, third: Option<Source>): Option<Source> {
    if first.Some? then first else if second.Some? then second else third
  }

  function Preferred(existing: Quote, incoming: Quote): Quote {
    if Priority(existing.status, existing.confidence) > Priority(incoming.status, incoming.confidence) then existing
    else incoming
  }

  function MergeQuotes(existing: Quote, incoming: Quote): Quote {
    var preferred := Preferred(existing, incoming);
    var source := PreferredSource(preferred.source, existing.source, incoming.source);
    var sourceID := Coalesce(preferred.sourceID, Coalesce(existing.sourceID, incoming.sourceID));
    Quote(existing.quoteID,
          PreferLonger(existing.text, incoming.text),
          Coalesce(incoming.artistID, existing.artistID),
          if source.Some? && sourceID == "" then source.value.sourceID else sourceID,
          preferred.status,
          MaxConfidence(existing.confidence, incoming.confidence),
          Coalesce(preferred.origin, Coalesce(existing.origin, incoming.origin)),
          Dedupe(existing.tags + incoming.tags),
          Dedupe(existing.evidence + incoming.evidence),
          source)
  }

  // ---------------------------------------------------------------- what the merge prefers

  /** A higher rank, or the same rank and more whole points of confidence. */
  predicate Beats(a: Quote, b: Quote) {
    || Rank(a.status) > Rank(b.status)
    || (Rank(a.status) == Rank(b.status) && Points(a.confidence) > Points(b.confidence))
  }

  lemma PreferredExactly(existing: Quote, incoming: Quote)
    ensures Preferred(existing, incoming) == if Beats(existing, incoming) then existing else incoming
  {
    PriorityIsLexicographic(existing.status, existing.confidence, incoming.status, incoming.confidence);
  }

  /** The packed numbers never look at a source. Of two records of which one has a source, that one is
      preferred exactly when it beats the other, or, coming in, is not beaten by it. */
  lemma SourceBackedIsPreferredExactly(existing: Quote, incoming: Quote)
    requires existing.source.Some? != incoming.source.Some?
    ensures Preferred(existing, incoming).source.Some? <==>
            if existing.source.Some? then Beats(existing, incoming) else !Beats(existing, incoming)
  {
    PreferredExactly(existing, incoming);
  }

  /** Between equal ranks the more confident record is preferred exactly when it is the incoming one
      or leads by a whole point. */
  lemma MoreConfidentIsPreferredExactly(existing: Quote, incoming: Quote)
    requires Rank(existing.status) == Rank(incoming.status) && existing.confidence != incoming.confidence
    ensures Preferred(existing, incoming).confidence == MaxConfidence(existing.confidence, incoming.confidence) <==>
            incoming.confidence > existing.confidence || Points(existing.confidence) != Points(incoming.confidence)
  {
    PreferredExactly(existing, incoming);
    if existing.confidence < incoming.confidence {
      PointsMonotone(existing.confidence, incoming.confidence);
    } else {
      PointsMonotone(incoming.confidence, existing.confidence);
    }
  }

  lemma PointsMonotone(c: Confidence, d: Confidence)
    requires c <= d
    ensures Points(c) <= Points(d)
  {
    assert c * 100.0 <= d * 100.0;
  }

  /** The record that the merge prefers, and the other one. */
  predicate WinsOver(winner: Quote, loser: Quote, existing: Quote, incoming: Quote) {
    if Beats(existing, incoming) then winner == existing && loser == incoming
    else winner == incoming && loser == existing
  }

  /** The longer text, the stored one in a draw unless it is blank. */
  predicate IsLongerText(text: string, stored: string, incoming: string) {
    && (text == stored || text == incoming)
    && ByteLength(TrimSpace(text)) >= ByteLength(TrimSpace(stored))
    && ByteLength(TrimSpace(text)) >= ByteLength(TrimSpace(incoming))
    && (ByteLength(TrimSpace(stored)) == ByteLength(TrimSpace(incoming)) && !IsBlank(stored) ==> text == stored)
  }

  /** Column by column, what a merge takes from which record. */
  lemma MergeColumns(existing: Quote, incoming: Quote, winner: Quote, loser: Quote)
    requires WinsOver(winner, loser, existing, incoming)
    ensures var merged := MergeQuotes(existing, incoming);
            && merged.quoteID == existing.quoteID && merged.status == winner.status
            && IsLongerText(merged.text, existing.text, incoming.text)
            && merged.artistID == (if !IsBlank(incoming.artistID) then incoming.artistID
                                   else if !IsBlank(existing.artistID) then existing.artistID else "")
            && merged.origin == (if !IsBlank(winner.origin) then winner.origin
                                 else if !IsBlank(loser.origin) then loser.origin else "")
            && merged.source == (if winner.source.Some? then winner.source else loser.source)
            && merged.sourceID == (if !IsBlank(winner.sourceID) then winner.sourceID
                                   else if !IsBlank(loser.sourceID) then loser.sourceID
                                   else if merged.source.Some? then merged.source.value.sourceID else "")
  {
    PreferredExactly(existing, incoming);
  }

  // ---------------------------------------------------------------- the guarded write

  /** Two literals: the solver does not look through sixty characters to the first one of a single literal. */
  const NO_EVIDENCE := "Imported without explicit evidence; " + "inspect source metadata."

  function EffectiveOrigin(q: Quote): string {
    var origin := TrimSpace(q.origin);
    if origin == "" && q.source.Some? then q.source.value.provider else origin
  }

  /** The values of the INSERT and of the tag and evidence rows behind it. */
  function RowOf(q: Quote): Row {
    Row(q.text, NormalizeText(q.text), q.artistID, TrimSpace(q.sourceID), q.status, q.confidence,
        EffectiveOrigin(q), Dedupe(q.tags), if q.evidence == [] then [NO_EVIDENCE] else Dedupe(q.evidence))
  }

  /** The condition of the two CASE expressions. */
  predicate Wins(excluded: Row, stored: Row) {
    || SqlRank(excluded.status) > SqlRank(stored.status)
    || (SqlRank(excluded.status) == SqlRank(stored.status) && excluded.confidence >= stored.confidence)
  }

  /** `ON CONFLICT(quote_id) DO UPDATE`. */
  function Guarded(stored: Option<Row>, excluded: Row): Row {
    match stored
    case None => excluded
    case Some(prior) =>
      excluded.(status := if Wins(excluded, prior) then excluded.status else prior.status,
                confidence := MaxConfidence(prior.confidence, excluded.confidence),
                origin := if Wins(excluded, prior) && excluded.origin != "" then excluded.origin else prior.origin)
  }

  // ---------------------------------------------------------------- the upsert

  /** The tables, with the merge log keyed by winner and loser. */
  datatype Db = Db(quotes: map<string, Row>, merges: map<(string, string), int>)

  const EMPTY := Db(map[], map[])

  datatype UpsertResult = Stored(quoteID: string) | StatusRejected | UnknownArtist

  /** A row as `QuoteByID` reads it. */
  function ReadQuote(sources: map<string, Source>, quoteID: string, row: Row): Quote {
    var sourceID := TrimSpace(row.sourceID);
    Quote(quoteID, row.text, row.artistID, sourceID, row.status, row.confidence, row.origin, row.tags, row.evidence,
          if sourceID != "" && sourceID in sources then Some(sources[sourceID]) else None)
  }

  /** The identifier hashes these three, with the hash taken as injective. */
  function HashedID(artistID: string, normalizedText: string, url: string): (id: string)
    ensures id != ""
  {
    artistID + "|" + normalizedText + "|" + url
  }

  function CandidateID(q: Quote): (id: string)
    ensures id != ""
  {
    if !IsBlank(q.quoteID) then q.quoteID
    else HashedID(q.artistID, NormalizeText(q.text), if q.source.Some? then q.source.value.url else "")
  }

  lemma HashedExactly(a: string, m: string, u: string, b: string, n: string, v: string)
    requires '|' !in a && '|' !in m && '|' !in b && '|' !in n
    ensures HashedID(a, m, u) == HashedID(b, n, v) <==> a == b && m == n && u == v
  {
    assert HashedID(a, m, u) == a + ['|'] + (m + ['|'] + u);
    assert HashedID(b, n, v) == b + ['|'] + (n + ['|'] + v);
    if HashedID(a, m, u) == HashedID(b, n, v) {
      BarSplits(a, m + ['|'] + u, b, n + ['|'] + v);
      BarSplits(m, u, n, v);
    }
  }

  lemma BarNotInNormalForm(text: string)
    ensures '|' !in NormalizeText(text)
  {
    NormalFormIsTidy(text);
  }

  function SourceUrl(q: Quote): string {
    if q.source.Some? then q.source.value.url else ""
  }

  /** Without an identifier of their own two requests get the same one exactly when artist, normal form
      and source address agree; an identifier that is given is taken as it is. */
  lemma CandidateExactly(p: Quote, q: Quote)
    requires '|' !in p.artistID && '|' !in q.artistID
    ensures !IsBlank(p.quoteID) ==> CandidateID(p) == p.quoteID
    ensures IsBlank(p.quoteID) && IsBlank(q.quoteID) ==>
              (CandidateID(p) == CandidateID(q) <==>
               && p.artistID == q.artistID && NormalizeText(p.text) == NormalizeText(q.text)
               && SourceUrl(p) == SourceUrl(q))
  {
    BarNotInNormalForm(p.text);
    BarNotInNormalForm(q.text);
    HashedExactly(p.artistID, NormalizeText(p.text), SourceUrl(p), q.artistID, NormalizeText(q.text), SourceUrl(q));
  }

  /** What `existingQuote` may answer: a row of the artist with the best score of at least 90. Rows come
      in no particular order, so any of several best ones may be it. */
  ghost predicate IsBest(quotes: map<string, Row>, artistID: string, text: string, best: Option<string>) {
    match best
    case None => forall id <- quotes | quotes[id].artistID == artistID :: QuoteMergeScore(text, quotes[id].text) < 90
    case Some(b) =>
      && b in quotes && quotes[b].artistID == artistID && QuoteMergeScore(text, quotes[b].text) >= 90
      && forall id <- quotes | quotes[id].artistID == artistID ::
           QuoteMergeScore(text, quotes[id].text) <= QuoteMergeScore(text, quotes[b].text)
  }

  /** The quote that is written. */
  function Prepared(sources: map<string, Source>, quotes: map<string, Row>, q: Quote, best: Option<string>): Quote
    requires best.Some? ==> best.value in quotes
  {
    match best
    case Some(b) => MergeQuotes(ReadQuote(sources, b, quotes[b]), q)
    case None => if q.quoteID == "" then q.(quoteID := CandidateID(q)) else q
  }

  function Upsert(artists: set<string>, sources: map<string, Source>, db: Db, q: Quote, best: Option<string>)
    : (Db, UpsertResult)
    requires best.Some? ==> best.value in db.quotes
  {
    var p := Prepared(sources, db.quotes, q, best);
    if !Allowed(p.status) then (db, StatusRejected)
    else if p.artistID !in artists then (db, UnknownArtist)
    else
      var loser := CandidateID(q);
      var merges :=
        if best.Some? && loser != p.quoteID && (p.quoteID, loser) !in db.merges
        then db.merges[(p.quoteID, loser) := QuoteMergeScore(q.text, db.quotes[best.value].text)]
        else db.merges;
      (Db(db.quotes[p.quoteID := Guarded(Lookup(db.quotes, p.quoteID), RowOf(p))], merges), Stored(p.quoteID))
  }

  // ---------------------------------------------------------------- the invariant

  predicate IsClean(values: seq<string>) {
    forall v <- values :: TrimSpace(v) == v != ""
  }

  predicate RowValid(artists: set<string>, row: Row) {
    && row.normalizedText == NormalizeText(row.text)
    && Allowed(row.status) && row.artistID in artists
    && IsClean(row.tags) && IsClean(row.evidence)
  }

  /** No two quotes of one artist share a normal form, and each row stores its own. */
  ghost predicate NormalTextsUnique(quotes: map<string, Row>) {
    && (forall id <- quotes :: quotes[id].normalizedText == NormalizeText(quotes[id].text))
    && forall a <- quotes, b <- quotes | a != b && quotes[a].artistID == quotes[b].artistID ::
         quotes[a].normalizedText != quotes[b].normalizedText
  }

  ghost predicate QuotesValid(artists: set<string>, quotes: map<string, Row>) {
    && "" !in quotes
    && (forall id <- quotes :: RowValid(artists, quotes[id]))
    && NormalTextsUnique(quotes)
  }

  /** The merge turns a blank artist identifier into the empty one, so a catalog must not know the
      empty identifier beside another blank one. */
  predicate NoBlankTwins(artists: set<string>) {
    "" in artists ==> forall a <- artists :: a == "" || !IsBlank(a)
  }

  lemma DedupeIsClean(values: seq<string>)
    ensures IsClean(Dedupe(values))
  {
    forall x | x in Dedupe(values)
      ensures TrimSpace(x) == x != ""
    {
      assert x in CleanSet(values);
    }
  }

  lemma RowOfIsValid(artists: set<string>, q: Quote)
    requires Allowed(q.status) && q.artistID in artists
    ensures RowValid(artists, RowOf(q))
  {
    DedupeIsClean(q.tags);
    DedupeIsClean(q.evidence);
    NoEvidenceIsClean();
  }

  lemma NoEvidenceIsClean()
    ensures IsClean([NO_EVIDENCE])
  {
    var s := NO_EVIDENCE;
    assert s[0] == 'I';
    assert s[|s| - 1] == '.';
    TrimmedIsClean(NO_EVIDENCE);
  }

  lemma TrimmedIsClean(s: string)
    requires s != [] && !IsSpace(s[0]) && !IsSpace(s[|s| - 1])
    ensures IsClean([s])
  {
  }

  lemma GuardedIsValid(artists: set<string>, stored: Option<Row>, row: Row)
    requires RowValid(artists, row) && (stored.Some? ==> RowValid(artists, stored.value))
    ensures RowValid(artists, Guarded(stored, row))
  {
  }

  lemma PutKeepsUnique(quotes: map<string, Row>, id: string, row: Row)
    requires NormalTextsUnique(quotes) && row.normalizedText == NormalizeText(row.text)
    requires forall other <- quotes | other != id && quotes[other].artistID == row.artistID ::
               quotes[other].normalizedText != row.normalizedText
    ensures NormalTextsUnique(quotes[id := row])
  {
    var after := quotes[id := row];
    forall a, b | a in after && b in after && a != b && after[a].artistID == after[b].artistID
      ensures after[a].normalizedText != after[b].normalizedText
    {
      assert a != id ==> a in quotes && after[a] == quotes[a];
      assert b != id ==> b in quotes && after[b] == quotes[b];
    }
  }

  lemma PutKeepsValid(artists: set<string>, quotes: map<string, Row>, id: string, row: Row)
    requires QuotesValid(artists, quotes) && id != "" && RowValid(artists, row)
    requires NormalTextsUnique(quotes[id := row])
    ensures QuotesValid(artists, quotes[id := row])
  {
  }

  lemma SameFormScoresFull(left: string, right: string)
    ensures NormalizeText(left) == NormalizeText(right) <==> QuoteMergeScore(left, right) == 100
    ensures QuoteMergeScore(left, right) <= 100
  {
    MergeScoreMeaning(left, right);
    SameNormalFormIffSameWords(left, right);
  }

  /** The other quotes of the artist have another normal form than the quote that is written. */
  lemma PreparedIsUnlikeOthers(artists: set<string>, sources: map<string, Source>, db: Db, q: Quote,
                               best: Option<string>, other: string)
    requires QuotesValid(artists, db.quotes) && NoBlankTwins(artists) && IsBest(db.quotes, q.artistID, q.text, best)
    requires var p := Prepared(sources, db.quotes, q, best);
             && p.artistID in artists && other in db.quotes && other != p.quoteID
             && db.quotes[other].artistID == p.artistID
    ensures db.quotes[other].normalizedText != NormalizeText(Prepared(sources, db.quotes, q, best).text)
  {
    var p := Prepared(sources, db.quotes, q, best);
    SameFormScoresFull(q.text, db.quotes[other].text);
    if best.Some? {
      var row := db.quotes[best.value];
      assert row.artistID in artists;
      assert p.artistID == q.artistID;
      SameFormScoresFull(q.text, row.text);
      assert p.text == row.text || p.text == q.text;
    }
  }

  lemma PreparedHasID(sources: map<string, Source>, quotes: map<string, Row>, q: Quote, best: Option<string>)
    requires "" !in quotes && (best.Some? ==> best.value in quotes)
    ensures Prepared(sources, quotes, q, best).quoteID != ""
  {
  }

  /** Every upsert keeps the invariant. */
  lemma UpsertKeepsValid(artists: set<string>, sources: map<string, Source>, db: Db, q: Quote, best: Option<string>)
    requires QuotesValid(artists, db.quotes) && NoBlankTwins(artists) && IsBest(db.quotes, q.artistID, q.text, best)
    ensures QuotesValid(artists, Upsert(artists, sources, db, q, best).0.quotes)
  {
    var p := Prepared(sources, db.quotes, q, best);
    if Allowed(p.status) && p.artistID in artists {
      var prior := Lookup(db.quotes, p.quoteID);
      var row := Guarded(prior, RowOf(p));
      RowOfIsValid(artists, p);
      GuardedIsValid(artists, prior, RowOf(p));
      PreparedHasID(sources, db.quotes, q, best);
      forall other | other in db.quotes && other != p.quoteID && db.quotes[other].artistID == row.artistID
        ensures db.quotes[other].normalizedText != row.normalizedText
      {
        PreparedIsUnlikeOthers(artists, sources, db, q, best, other);
      }
      PutKeepsUnique(db.quotes, p.quoteID, row);
      PutKeepsValid(artists, db.quotes, p.quoteID, row);
    }
  }
}
