/** Catalogs built by upserts one after the other: the normal forms of an artist stay distinct, and an
    upsert that finds a near-duplicate stores exactly what the merge decided and loses nothing. */
module QuoteStore {
  import opened Text
  import opened NormalForms
  import opened MergeScore
  import opened Quotes

  // ---------------------------------------------------------------- one near-duplicate upsert

  function Elements(values: seq<string>): set<string> {
    set v | v in values
  }

  lemma CleanSetOfUnion(stored: seq<string>, incoming: seq<string>)
    requires IsClean(stored)
    ensures CleanSet(stored + incoming) == Elements(stored) + CleanSet(incoming)
  {
    forall x | x in Elements(stored)
      ensures x in CleanSet(stored + incoming)
    {
      assert TrimSpace(x) == x && !IsBlank(x) && x in stored + incoming;
    }
  }

  lemma DedupeAgain(values: seq<string>)
    ensures Dedupe(Dedupe(values)) == Dedupe(values)
  {
    var once := Dedupe(values);
    DedupeIsClean(values);
    CleanSetOfUnion(once, []);
    assert once + [] == once;
    assert CleanSet(once) == Elements(once);
    AscendingUnique(Dedupe(once), once);
  }

  /** The SQL guard never overrides the merge that was computed from the current row. */
  lemma GuardAgreesWithMerge(sources: map<string, Source>, id: string, row: Row, q: Quote)
    requires Allowed(row.status)
    ensures var merged := MergeQuotes(ReadQuote(sources, id, row), q);
            Allowed(merged.status) ==>
              && Wins(RowOf(merged), row)
              && Guarded(Some(row), RowOf(merged)).status == merged.status
              && Guarded(Some(row), RowOf(merged)).confidence == merged.confidence
  {
    PriorityIsLexicographic(row.status, row.confidence, q.status, q.confidence);
  }

  lemma MergedList(stored: seq<string>, incoming: seq<string>)
    requires IsClean(stored)
    ensures Elements(Dedupe(Dedupe(stored + incoming))) == Elements(stored) + CleanSet(incoming)
  {
    CleanSetOfUnion(stored, incoming);
    DedupeAgain(stored + incoming);
    forall x
      ensures x in Elements(Dedupe(stored + incoming)) <==> x in CleanSet(stored + incoming)
    {
    }
  }

  /** Tags and evidence of the written quote: the union of both sides, with the placeholder where there
      is no evidence at all. */
  lemma MergeKeepsLists(existing: Quote, q: Quote)
    requires IsClean(existing.tags) && IsClean(existing.evidence)
    ensures var stored := RowOf(MergeQuotes(existing, q));
            && Elements(stored.tags) == Elements(existing.tags) + CleanSet(q.tags)
            && Elements(stored.evidence) ==
               var both := Elements(existing.evidence) + CleanSet(q.evidence);
               if both == {} then {NO_EVIDENCE} else both
  {
    MergedList(existing.tags, q.tags);
    var once := Dedupe(existing.evidence + q.evidence);
    MergedList(existing.evidence, q.evidence);
    if once == [] {
      assert Elements(Dedupe(once)) == {};
      assert NO_EVIDENCE in [NO_EVIDENCE];
      assert Elements([NO_EVIDENCE]) == {NO_EVIDENCE};
    } else {
      assert once[0] in CleanSet(once) by {
        DedupeIsClean(existing.evidence + q.evidence);
        assert TrimSpace(once[0]) == once[0] && once[0] in once;
      }
      assert once[0] in Dedupe(once);
      assert once[0] in Elements(Dedupe(once));
    }
  }

  lemma UpsertOfMatch(artists: set<string>, sources: map<string, Source>, db: Db, q: Quote, b: string)
    requires b in db.quotes && Upsert(artists, sources, db, q, Some(b)).1.Stored?
    ensures var merged := MergeQuotes(ReadQuote(sources, b, db.quotes[b]), q);
            var (after, result) := Upsert(artists, sources, db, q, Some(b));
            && result == Stored(b) && Allowed(merged.status)
            && after.quotes == db.quotes[b := Guarded(Some(db.quotes[b]), RowOf(merged))]
            && (CandidateID(q) != b ==> (b, CandidateID(q)) in after.merges)
            && db.merges.Keys <= after.merges.Keys
  {
  }

  /** Nothing of the stored row or of the request is lost: rank and confidence are the best of both, the
      tags are the union, and the evidence holds both sides. */
  ghost predicate KeepsBoth(stored: Row, row: Row, q: Quote) {
    && IsLongerText(stored.text, row.text, q.text) && stored.normalizedText == NormalizeText(stored.text)
    && Rank(stored.status) == MaxInt(Rank(row.status), Rank(q.status))
    && stored.confidence == MaxConfidence(row.confidence, q.confidence)
    && Elements(stored.tags) == Elements(row.tags) + CleanSet(q.tags)
    && Elements(stored.evidence) == (var both := Elements(row.evidence) + CleanSet(q.evidence);
                                     if both == {} then {NO_EVIDENCE} else both)
    && Ascending(stored.tags) && Ascending(stored.evidence)
  }

  lemma MatchedRow(sources: map<string, Source>, id: string, row: Row, q: Quote)
    requires Allowed(row.status) && IsClean(row.tags) && IsClean(row.evidence)
    ensures var merged := MergeQuotes(ReadQuote(sources, id, row), q);
            Allowed(merged.status) ==> KeepsBoth(Guarded(Some(row), RowOf(merged)), row, q)
  {
    var existing := ReadQuote(sources, id, row);
    GuardAgreesWithMerge(sources, id, row, q);
    MergeKeepsLists(existing, q);
    PriorityIsLexicographic(row.status, row.confidence, q.status, q.confidence);
    MergedText(existing, q);
  }

  lemma MergedText(existing: Quote, q: Quote)
    ensures var row := RowOf(MergeQuotes(existing, q));
            && IsLongerText(row.text, existing.text, q.text) && row.normalizedText == NormalizeText(row.text)
            && Ascending(row.tags) && Ascending(row.evidence)
  {
  }

  /** The columns that one of the two records decides: the winner's value, else the loser's, else the one
      that the source gives. */
  ghost predicate TakesFromWinner(stored: Row, winner: Quote, loser: Quote) {
    var source := if winner.source.Some? then winner.source else loser.source;
    && stored.status == winner.status
    && stored.sourceID == TrimSpace(if !IsBlank(winner.sourceID) then winner.sourceID
                                    else if !IsBlank(loser.sourceID) then loser.sourceID
                                    else if source.Some? then source.value.sourceID else "")
    && (!IsBlank(winner.origin) ==> stored.origin == TrimSpace(winner.origin))
    && (IsBlank(winner.origin) && !IsBlank(loser.origin) ==> stored.origin == TrimSpace(loser.origin))
    && (IsBlank(winner.origin) && IsBlank(loser.origin) && source.Some? && source.value.provider != "" ==>
          stored.origin == source.value.provider)
  }

  lemma MergedRowTakesFromWinner(sources: map<string, Source>, id: string, row: Row, q: Quote, winner: Quote,
                                 loser: Quote)
    requires WinsOver(winner, loser, ReadQuote(sources, id, row), q) && Allowed(row.status) && Allowed(winner.status)
    ensures TakesFromWinner(Guarded(Some(row), RowOf(MergeQuotes(ReadQuote(sources, id, row), q))), winner, loser)
  {
    MergeColumns(ReadQuote(sources, id, row), q, winner, loser);
    GuardAgreesWithMerge(sources, id, row, q);
  }

  /** Which record each column of a near-duplicate comes from. */
  lemma NearDuplicateColumns(artists: set<string>, sources: map<string, Source>, db: Db, q: Quote, b: string, after: Db,
                             winner: Quote, loser: Quote)
    requires b in db.quotes && Allowed(db.quotes[b].status)
    requires (after, Stored(b)) == Upsert(artists, sources, db, q, Some(b))
    requires WinsOver(winner, loser, ReadQuote(sources, b, db.quotes[b]), q)
    ensures b in after.quotes && TakesFromWinner(after.quotes[b], winner, loser)
    ensures after.quotes[b].artistID == (if !IsBlank(q.artistID) then q.artistID
                                         else if !IsBlank(db.quotes[b].artistID) then db.quotes[b].artistID else "")
  {
    UpsertOfMatch(artists, sources, db, q, b);
    MergeColumns(ReadQuote(sources, b, db.quotes[b]), q, winner, loser);
    MergedRowTakesFromWinner(sources, b, db.quotes[b], q, winner, loser);
  }

  /** The stronger of two statuses is stored, whichever comes first. */
  lemma StrongerStatusIsStored(artists: set<string>, sources: map<string, Source>, db: Db, q: Quote, b: string,
                               after: Db, i: nat, j: nat)
    requires b in db.quotes && i < 5 && j < 5 && db.quotes[b].status == LADDER[i] && q.status == LADDER[j]
    requires (after, Stored(b)) == Upsert(artists, sources, db, q, Some(b))
    ensures b in after.quotes && after.quotes[b].status == LADDER[if i < j then j else i]
  {
    LadderExactly(i, j);
    LadderExactly(j, i);
    var existing := ReadQuote(sources, b, db.quotes[b]);
    var winner, loser := if Beats(existing, q) then existing else q, if Beats(existing, q) then q else existing;
    NearDuplicateColumns(artists, sources, db, q, b, after, winner, loser);
  }

  /** A sequential upsert that finds a near-duplicate stores the matched row, logs the identifier it
      swallowed, and changes nothing else. */
  lemma NearDuplicateUpsert(artists: set<string>, sources: map<string, Source>, db: Db, q: Quote, b: string,
                            after: Db, result: UpsertResult)
    requires b in db.quotes && RowValid(artists, db.quotes[b])
    requires (after, result) == Upsert(artists, sources, db, q, Some(b)) && result.Stored?
    ensures result == Stored(b) && after.quotes.Keys == db.quotes.Keys
    ensures after.quotes - {b} == db.quotes - {b}
    ensures KeepsBoth(after.quotes[b], db.quotes[b], q)
    ensures if CandidateID(q) == b then after.merges == db.merges
            else LogGains(db.merges, after.merges, (b, CandidateID(q)), QuoteMergeScore(q.text, db.quotes[b].text))
  {
    var row := db.quotes[b];
    MergeIsLogged(artists, sources, db, q, b);
    UpsertOfMatch(artists, sources, db, q, b);
    MatchedRow(sources, b, row, q);
    var merged := MergeQuotes(ReadQuote(sources, b, row), q);
    OneRowChanged(db.quotes, b, Guarded(Some(row), RowOf(merged)));
  }

  /** `ON CONFLICT DO NOTHING`: an entry that is there stays, one that is not is added. */
  ghost predicate LogGains(before: map<(string, string), int>, after: map<(string, string), int>,
                           key: (string, string), score: int) {
    && before.Items <= after.Items && after.Keys == before.Keys + {key}
    && (key !in before ==> after[key] == score)
  }

  lemma LogPut(before: map<(string, string), int>, key: (string, string), score: int)
    requires key !in before
    ensures LogGains(before, before[key := score], key, score)
  {
    forall item | item in before.Items
      ensures item in before[key := score].Items
    {
      assert before[key := score][item.0] == item.1;
    }
  }

  /** The merge log gains the swallowed identifier with the score. */
  lemma MergeIsLogged(artists: set<string>, sources: map<string, Source>, db: Db, q: Quote, b: string)
    requires b in db.quotes && Upsert(artists, sources, db, q, Some(b)).1.Stored?
    ensures var merges, loser := Upsert(artists, sources, db, q, Some(b)).0.merges, CandidateID(q);
            if loser == b then merges == db.merges
            else LogGains(db.merges, merges, (b, loser), QuoteMergeScore(q.text, db.quotes[b].text))
  {
    var key := (b, CandidateID(q));
    if CandidateID(q) != b {
      LogOrNothing(db.merges, key, QuoteMergeScore(q.text, db.quotes[b].text));
    }
  }

  lemma LogOrNothing(before: map<(string, string), int>, key: (string, string), score: int)
    ensures LogGains(before, if key !in before then before[key := score] else before, key, score)
  {
    if key !in before {
      LogPut(before, key, score);
    }
  }

  lemma OneRowChanged(quotes: map<string, Row>, b: string, row: Row)
    requires b in quotes
    ensures quotes[b := row].Keys == quotes.Keys && quotes[b := row] - {b} == quotes - {b} && quotes[b := row][b] == row
  {
  }

  // ---------------------------------------------------------------- one upsert without a match

  /** The columns that every write takes from the request. */
  ghost predicate HoldsRequest(row: Row, q: Quote) {
    && row.text == q.text && row.normalizedText == NormalizeText(q.text) && row.artistID == q.artistID
    && row.sourceID == TrimSpace(q.sourceID)
    && Ascending(row.tags) && Elements(row.tags) == CleanSet(q.tags)
    && Ascending(row.evidence) && (q.evidence != [] ==> Elements(row.evidence) == CleanSet(q.evidence))
    && (q.evidence == [] ==> row.evidence == ["Imported without explicit evidence; " + "inspect source metadata."])
  }

  /** The provider a request names, or else that of its source. */
  ghost predicate NamesOrigin(q: Quote, origin: string) {
    if !IsBlank(q.origin) then origin == TrimSpace(q.origin)
    else if q.source.Some? then origin == q.source.value.provider
    else origin == ""
  }

  /** A row that was inserted reads back as the request, cleaned up, with the source its identifier names. */
  lemma InsertedReadsBack(sources: map<string, Source>, id: string, q: Quote)
    ensures var read := ReadQuote(sources, id, RowOf(q));
            && read.quoteID == id && read.text == q.text && read.artistID == q.artistID
            && read.sourceID == TrimSpace(q.sourceID) && read.status == q.status && read.confidence == q.confidence
            && NamesOrigin(q, read.origin) && read.tags == Dedupe(q.tags) && read.evidence == RowOf(q).evidence
            && (IsBlank(q.sourceID) || TrimSpace(q.sourceID) !in sources ==> read.source == None)
            && (!IsBlank(q.sourceID) && TrimSpace(q.sourceID) in sources ==>
                  read.source == Some(sources[TrimSpace(q.sourceID)]))
  {
    assert TrimSpace(TrimSpace(q.sourceID)) == TrimSpace(q.sourceID);
  }

  /** A request that is unlike every quote of its artist: it is refused for a status that is not stored or
      an artist that is not known, else it becomes the row of its identifier. A row that had the
      identifier keeps the stronger status, the higher confidence, and its origin when it is the
      stronger one or the request has none. */
  lemma UnmatchedUpsert(artists: set<string>, sources: map<string, Source>, db: Db, q: Quote, id: string, after: Db,
                        result: UpsertResult)
    requires (after, result) == Upsert(artists, sources, db, q, None)
    requires id == if q.quoteID == "" then CandidateID(q) else q.quoteID
    ensures result == (if q.status !in LADDER then StatusRejected
                       else if q.artistID !in artists then UnknownArtist else Stored(id))
    ensures !result.Stored? ==> after == db
    ensures result.Stored? ==>
              && after.merges == db.merges && after.quotes.Keys == db.quotes.Keys + {id}
              && after.quotes - {id} == db.quotes - {id} && HoldsRequest(after.quotes[id], q)
    ensures result.Stored? && id !in db.quotes ==>
              var row := after.quotes[id];
              row.status == q.status && row.confidence == q.confidence && NamesOrigin(q, row.origin)
    ensures result.Stored? && id in db.quotes ==> Overwritten(after.quotes[id], db.quotes[id], q)
  {
    LadderExactly(0, 0);
    var row := Guarded(Lookup(db.quotes, id), RowOf(q));
    WrittenHoldsRequest(Lookup(db.quotes, id), q);
    if result.Stored? {
      UnmatchedIsWritten(artists, sources, db, q, id);
      RowPut(db.quotes, id, row);
      if id in db.quotes {
        OverwrittenRow(db.quotes[id], q);
      }
    }
  }

  lemma UnmatchedIsWritten(artists: set<string>, sources: map<string, Source>, db: Db, q: Quote, id: string)
    requires Upsert(artists, sources, db, q, None).1.Stored?
    requires id == if q.quoteID == "" then CandidateID(q) else q.quoteID
    ensures Upsert(artists, sources, db, q, None).0
         == Db(db.quotes[id := Guarded(Lookup(db.quotes, id), RowOf(q))], db.merges)
  {
    assert RowOf(q.(quoteID := id)) == RowOf(q);
  }

  lemma RowPut(quotes: map<string, Row>, id: string, row: Row)
    ensures var after := quotes[id := row];
            after.Keys == quotes.Keys + {id} && after - {id} == quotes - {id} && after[id] == row
  {
  }

  lemma WrittenHoldsRequest(prior: Option<Row>, q: Quote)
    ensures HoldsRequest(Guarded(prior, RowOf(q)), q)
  {
    forall x
      ensures x in Elements(Dedupe(q.tags)) <==> x in CleanSet(q.tags)
      ensures x in Elements(Dedupe(q.evidence)) <==> x in CleanSet(q.evidence)
    {
    }
    assert Elements(Dedupe(q.tags)) == CleanSet(q.tags) && Elements(Dedupe(q.evidence)) == CleanSet(q.evidence);
  }

  ghost predicate Overwritten(row: Row, prior: Row, q: Quote) {
    && row.confidence == MaxConfidence(prior.confidence, q.confidence)
    && if SqlRank(q.status) > SqlRank(prior.status)
          || (SqlRank(q.status) == SqlRank(prior.status) && q.confidence >= prior.confidence)
       then row.status == q.status && (NamesOrigin(q, row.origin) || (NamesOrigin(q, "") && row.origin == prior.origin))
       else row.status == prior.status && row.origin == prior.origin
  }

  lemma OverwrittenRow(prior: Row, q: Quote)
    ensures Overwritten(Guarded(Some(prior), RowOf(q)), prior, q)
  {
  }

  /** A request that matches is refused only when the stronger side has a status that is not stored, or
      when the artist of the merged quote is not known. */
  lemma MatchedResult(artists: set<string>, sources: map<string, Source>, db: Db, q: Quote, b: string,
                      winner: Quote, loser: Quote)
    requires b in db.quotes && WinsOver(winner, loser, ReadQuote(sources, b, db.quotes[b]), q)
    ensures var (after, result) := Upsert(artists, sources, db, q, Some(b));
            var artist := if !IsBlank(q.artistID) then q.artistID
                          else if !IsBlank(db.quotes[b].artistID) then db.quotes[b].artistID else "";
            && result == (if winner.status !in LADDER then StatusRejected
                          else if artist !in artists then UnknownArtist else Stored(b))
            && (!result.Stored? ==> after == db)
  {
    LadderExactly(0, 0);
    MergeColumns(ReadQuote(sources, b, db.quotes[b]), q, winner, loser);
  }

  // ---------------------------------------------------------------- whose status and origin are stored

  /** Status and origin of a merged row are those of the record the merge prefers. */
  lemma StoredIsPreferred(sources: map<string, Source>, id: string, row: Row, q: Quote)
    requires Allowed(row.status) && Allowed(q.status) && !IsBlank(row.origin) && !IsBlank(q.origin)
    ensures var existing := ReadQuote(sources, id, row);
            var stored := Guarded(Some(row), RowOf(MergeQuotes(existing, q)));
            && stored.status == Preferred(existing, q).status
            && stored.origin == TrimSpace(Preferred(existing, q).origin)
  {
    GuardAgreesWithMerge(sources, id, row, q);
  }

  /** A sequential upsert that finds a near-duplicate under another provider. */
  ghost predicate Contest(artists: set<string>, sources: map<string, Source>, db: Db, q: Quote, b: string, after: Db) {
    && b in db.quotes && Allowed(db.quotes[b].status) && Allowed(q.status)
    && !IsBlank(db.quotes[b].origin) && !IsBlank(q.origin)
    && TrimSpace(db.quotes[b].origin) != TrimSpace(q.origin)
    && (after, Stored(b)) == Upsert(artists, sources, db, q, Some(b))
    && b in after.quotes
  }

  lemma ContestWinner(artists: set<string>, sources: map<string, Source>, db: Db, q: Quote, b: string, after: Db)
    requires Contest(artists, sources, db, q, b, after)
    ensures var existing := ReadQuote(sources, b, db.quotes[b]);
            && after.quotes[b].status == Preferred(existing, q).status
            && after.quotes[b].origin == TrimSpace(Preferred(existing, q).origin)
  {
    UpsertOfMatch(artists, sources, db, q, b);
    StoredIsPreferred(sources, b, db.quotes[b], q);
  }

  /** Of a source-backed and a source-less record the row takes the origin of the source-backed one
      exactly when that beats the other, or, coming in, is not beaten by it. */
  lemma SourceBackedWinsExactly(artists: set<string>, sources: map<string, Source>, db: Db, q: Quote, b: string,
                                after: Db)
    requires Contest(artists, sources, db, q, b, after)
    requires var existing := ReadQuote(sources, b, db.quotes[b]); existing.source.Some? != q.source.Some?
    ensures var existing := ReadQuote(sources, b, db.quotes[b]);
            if existing.source.Some?
            then after.quotes[b].origin == TrimSpace(existing.origin) <==> Beats(existing, q)
            else after.quotes[b].origin == TrimSpace(q.origin) <==> !Beats(existing, q)
  {
    ContestWinner(artists, sources, db, q, b, after);
    SourceBackedIsPreferredExactly(ReadQuote(sources, b, db.quotes[b]), q);
  }

  /** Between equal ranks the row takes the origin of the more confident record exactly when that is
      the incoming one or leads by a whole percentage point. */
  lemma MoreConfidentWinsExactly(artists: set<string>, sources: map<string, Source>, db: Db, q: Quote, b: string,
                                 after: Db)
    requires Contest(artists, sources, db, q, b, after)
    requires Rank(db.quotes[b].status) == Rank(q.status) && db.quotes[b].confidence != q.confidence
    ensures var row := db.quotes[b];
            after.quotes[b].origin == TrimSpace(if row.confidence > q.confidence then row.origin else q.origin) <==>
            q.confidence > row.confidence || Points(row.confidence) != Points(q.confidence)
  {
    ContestWinner(artists, sources, db, q, b, after);
    MoreConfidentIsPreferredExactly(ReadQuote(sources, b, db.quotes[b]), q);
  }

  // ---------------------------------------------------------------- runs

  /** A sequential run: each request is upserted with some best match of the rows it finds. */
  ghost predicate IsRun(artists: set<string>, sources: map<string, Source>, requests: seq<Quote>, states: seq<Db>) {
    && |states| == |requests| + 1 && states[0] == EMPTY
    && forall i | 0 <= i < |requests| :: IsStep(artists, sources, requests[i], states[i], states[i + 1])
  }

  ghost predicate IsStep(artists: set<string>, sources: map<string, Source>, q: Quote, before: Db, after: Db) {
    exists best: Option<string> ::
      IsBest(before.quotes, q.artistID, q.text, best) && after == Upsert(artists, sources, before, q, best).0
  }

  lemma {:induction false} ReachableIsValid(artists: set<string>, sources: map<string, Source>, requests: seq<Quote>,
                                            states: seq<Db>, n: nat)
    requires NoBlankTwins(artists) && IsRun(artists, sources, requests, states) && n < |states|
    ensures QuotesValid(artists, states[n].quotes)
    decreases n
  {
    if n > 0 {
      ReachableIsValid(artists, sources, requests, states, n - 1);
      var q := requests[n - 1];
      assert IsStep(artists, sources, q, states[n - 1], states[n - 1 + 1]);
      var best: Option<string> :|
        && IsBest(states[n - 1].quotes, q.artistID, q.text, best)
        && states[n] == Upsert(artists, sources, states[n - 1], q, best).0;
      UpsertKeepsValid(artists, sources, states[n - 1], q, best);
    }
  }

  function Request(id: string, artistID: string): Quote {
    Quote(id, "a", artistID, "", Verified, 1.0, "curated", [], [], None)
  }

  lemma IsStepWith(artists: set<string>, sources: map<string, Source>, q: Quote, before: Db, best: Option<string>)
    requires IsBest(before.quotes, q.artistID, q.text, best)
    ensures IsStep(artists, sources, q, before, Upsert(artists, sources, before, q, best).0)
  {
  }

  lemma InsertStores(artists: set<string>, sources: map<string, Source>, db: Db, q: Quote)
    requires Allowed(q.status) && q.artistID in artists && q.quoteID != "" && q.quoteID !in db.quotes
    ensures Upsert(artists, sources, db, q, None).0.quotes == db.quotes[q.quoteID := RowOf(q)]
  {
  }

  lemma FirstInsert(artists: set<string>, sources: map<string, Source>, db: Db, q: Quote) returns (after: Db)
    requires Allowed(q.status) && q.artistID in artists && q.quoteID != "" && q.quoteID !in db.quotes
    requires forall id <- db.quotes :: db.quotes[id].artistID != q.artistID
    ensures IsStep(artists, sources, q, db, after) && after.quotes == db.quotes[q.quoteID := RowOf(q)]
  {
    IsStepWith(artists, sources, q, db, None);
    InsertStores(artists, sources, db, q);
    after := Upsert(artists, sources, db, q, None).0;
  }

  lemma OnlyRowIsBest(quotes: map<string, Row>, q: Quote, b: string)
    requires b in quotes && quotes[b].artistID == q.artistID && quotes[b].text == q.text
    requires forall id <- quotes | id != b :: quotes[id].artistID != q.artistID
    ensures IsBest(quotes, q.artistID, q.text, Some(b))
  {
    MergeScoreMeaning(q.text, q.text);
  }

  lemma RowOfKeepsOrigin(q: Quote)
    requires !IsBlank(q.origin)
    ensures RowOf(q).origin == TrimSpace(q.origin) == TrimSpace(RowOf(q).origin) && !IsBlank(RowOf(q).origin)
  {
    assert TrimSpace(TrimSpace(q.origin)) == TrimSpace(q.origin);
  }

  /** Two requests of one artist for one text: the second merges into the row of the first. */
  lemma SecondMerges(artists: set<string>, sources: map<string, Source>, q1: Quote, q2: Quote)
    returns (s1: Db, s2: Db)
    requires Allowed(q1.status) && Allowed(q2.status) && q1.artistID in artists && !IsBlank(q1.artistID)
    requires q1.quoteID != "" && q2.artistID == q1.artistID && q2.text == q1.text
    requires !IsBlank(q1.origin) && !IsBlank(q2.origin) && TrimSpace(q1.origin) != TrimSpace(q2.origin)
    ensures IsStep(artists, sources, q1, EMPTY, s1) && IsStep(artists, sources, q2, s1, s2)
    ensures s1.quotes == map[q1.quoteID := RowOf(q1)] && Contest(artists, sources, s1, q2, q1.quoteID, s2)
  {
    s1 := FirstRow(artists, sources, q1);
    RowOfKeepsOrigin(q1);
    s2 := OnlyRowMerges(artists, sources, s1, q1.quoteID, RowOf(q1), q2);
  }

  lemma OnlyRowMerges(artists: set<string>, sources: map<string, Source>, db: Db, b: string, row: Row, q: Quote)
    returns (after: Db)
    requires db.quotes == map[b := row] && row.artistID == q.artistID && row.text == q.text
    requires q.artistID in artists && !IsBlank(q.artistID) && Allowed(row.status) && Allowed(q.status)
    requires !IsBlank(row.origin) && !IsBlank(q.origin) && TrimSpace(row.origin) != TrimSpace(q.origin)
    ensures IsStep(artists, sources, q, db, after) && Contest(artists, sources, db, q, b, after)
  {
    after := RowTakesMerge(artists, sources, db, q, b);
  }

  lemma RowTakesMerge(artists: set<string>, sources: map<string, Source>, db: Db, q: Quote, b: string)
    returns (after: Db)
    requires b in db.quotes && q.artistID in artists && !IsBlank(q.artistID)
    requires db.quotes[b].artistID == q.artistID && db.quotes[b].text == q.text
    requires forall id <- db.quotes | id != b :: db.quotes[id].artistID != q.artistID
    requires Allowed(db.quotes[b].status) && Allowed(q.status)
    ensures IsStep(artists, sources, q, db, after) && (after, Stored(b)) == Upsert(artists, sources, db, q, Some(b))
    ensures b in after.quotes
  {
    OnlyRowIsBest(db.quotes, q, b);
    IsStepWith(artists, sources, q, db, Some(b));
    MergeIsAccepted(ReadQuote(sources, b, db.quotes[b]), q);
    UpsertStores(artists, sources, db, q, b);
    after := Upsert(artists, sources, db, q, Some(b)).0;
  }

  lemma MergeIsAccepted(existing: Quote, q: Quote)
    requires Allowed(existing.status) && Allowed(q.status) && q.artistID == existing.artistID && !IsBlank(q.artistID)
    ensures var merged := MergeQuotes(existing, q);
            Allowed(merged.status) && merged.artistID == q.artistID && merged.quoteID == existing.quoteID
  {
  }

  lemma UpsertStores(artists: set<string>, sources: map<string, Source>, db: Db, q: Quote, b: string)
    requires b in db.quotes
    requires var merged := MergeQuotes(ReadQuote(sources, b, db.quotes[b]), q);
             Allowed(merged.status) && merged.artistID in artists && merged.quoteID == b
    ensures var (after, result) := Upsert(artists, sources, db, q, Some(b)); result == Stored(b) && b in after.quotes
  {
  }

  /** One request, then the same quote from a provider without a source. */
  function Earlier(confidence: Confidence, source: Option<Source>): Quote {
    Quote("1", "a", "a", if source.Some? then "s" else "", Verified, confidence, "curated", [], [], source)
  }

  function Later(confidence: Confidence): Quote {
    Quote("2", "a", "a", "", Verified, confidence, "scraped", [], [], None)
  }

  /** The two requests in a row leave the origin of the later one. */
  ghost predicate LaterReplaces(artists: set<string>, sources: map<string, Source>, q1: Quote, q2: Quote) {
    exists s1, s2: Db ::
      && IsStep(artists, sources, q1, EMPTY, s1) && IsStep(artists, sources, q2, s1, s2)
      && q1.quoteID in s2.quotes && s2.quotes[q1.quoteID].origin == q2.origin != q1.origin
  }

  /** Source-backed records do not always win: at equal rank and confidence the source-less one that
      comes second replaces the origin of the source-backed one. */
  lemma SourcelessReplacesSourced(artists: set<string>, sources: map<string, Source>)
    requires "a" in artists && "s" in sources
    ensures LaterReplaces(artists, sources, Earlier(0.9, Some(sources["s"])), Later(0.9))
  {
    var q1, q2 := Earlier(0.9, Some(sources["s"])), Later(0.9);
    OriginsOfRequests();
    var s1, s2 := SecondMerges(artists, sources, q1, q2);
    SourceBackedWinsExactly(artists, sources, s1, q2, "1", s2);
    ContestWinner(artists, sources, s1, q2, "1", s2);
  }

  /** Nor does the higher confidence: within one percentage point the less confident record that comes
      second replaces the origin of the more confident one. */
  lemma LessConfidentReplacesMoreConfident(artists: set<string>, sources: map<string, Source>)
    requires "a" in artists
    ensures LaterReplaces(artists, sources, Earlier(0.909, None), Later(0.901))
  {
    var q1, q2 := Earlier(0.909, None), Later(0.901);
    OriginsOfRequests();
    var s1, s2 := SecondMerges(artists, sources, q1, q2);
    assert Points(0.909) == 90 && Points(0.901) == 90;
    MoreConfidentWinsExactly(artists, sources, s1, q2, "1", s2);
    ContestWinner(artists, sources, s1, q2, "1", s2);
  }

  lemma OriginsOfRequests()
    ensures TrimSpace("curated") == "curated" && TrimSpace("scraped") == "scraped"
    ensures !IsBlank("a") && TrimSpace("s") == "s"
  {
  }

  lemma BlankArtistMerge(existing: Quote, q: Quote)
    requires existing.text == q.text && existing.status == q.status
    requires IsBlank(existing.artistID) && IsBlank(q.artistID)
    ensures var merged := MergeQuotes(existing, q);
            && merged.artistID == "" && merged.text == q.text
            && merged.quoteID == existing.quoteID && merged.status == q.status
  {
  }

  /** The stored row, moved to the empty artist identifier. */
  ghost predicate Moved(before: Db, after: Db, b: string, q: Quote) {
    && after.quotes - {b} == before.quotes - {b} && b in after.quotes
    && after.quotes[b].artistID == "" && after.quotes[b].normalizedText == NormalizeText(q.text)
  }

  /** Upserting a request again under a blank artist identifier moves the row to the empty one. */
  lemma BlankArtistMoves(artists: set<string>, sources: map<string, Source>, db: Db, q: Quote, b: string)
    returns (after: Db)
    requires "" in artists && IsBlank(q.artistID) && Allowed(q.status)
    requires b in db.quotes && db.quotes[b] == RowOf(q)
    requires forall id <- db.quotes | id != b :: db.quotes[id].artistID != q.artistID
    ensures IsStep(artists, sources, q, db, after) && Moved(db, after, b, q)
  {
    OnlyRowIsBest(db.quotes, q, b);
    var row := db.quotes[b];
    BlankArtistMerge(ReadQuote(sources, b, row), q);
    var merged := MergeQuotes(ReadQuote(sources, b, row), q);
    after := Upsert(artists, sources, db, q, Some(b)).0;
    UpsertOfMatch(artists, sources, db, q, b);
    OneRowChanged(db.quotes, b, Guarded(Some(row), RowOf(merged)));
  }

  lemma FirstRow(artists: set<string>, sources: map<string, Source>, q: Quote) returns (after: Db)
    requires Allowed(q.status) && q.artistID in artists && q.quoteID != ""
    ensures IsStep(artists, sources, q, EMPTY, after) && after.quotes == map[q.quoteID := RowOf(q)]
  {
    after := FirstInsert(artists, sources, EMPTY, q);
  }

  lemma SecondRow(artists: set<string>, sources: map<string, Source>, db: Db, id: string, row: Row, q: Quote)
    returns (after: Db)
    requires Allowed(q.status) && q.artistID in artists && q.quoteID != "" && q.quoteID != id
    requires db.quotes == map[id := row] && row.artistID != q.artistID
    ensures IsStep(artists, sources, q, db, after)
    ensures id in after.quotes && after.quotes[id] == row
    ensures q.quoteID in after.quotes && after.quotes[q.quoteID] == RowOf(q)
    ensures after.quotes.Keys == {id, q.quoteID}
  {
    after := FirstInsert(artists, sources, db, q);
  }

  lemma TwinsMeet(artists: set<string>, sources: map<string, Source>, q1: Quote, q2: Quote)
    returns (s1: Db, s2: Db, s3: Db)
    requires Allowed(q1.status) && q1.artistID == "" && "" in artists && Allowed(q2.status) && q2.artistID in artists
    requires q2.artistID != "" && IsBlank(q2.artistID) && q1.text == q2.text
    requires q1.quoteID != "" && q2.quoteID != "" && q1.quoteID != q2.quoteID
    ensures IsStep(artists, sources, q1, EMPTY, s1) && IsStep(artists, sources, q2, s1, s2)
    ensures IsStep(artists, sources, q2, s2, s3) && !NormalTextsUnique(s3.quotes)
  {
    s1 := FirstRow(artists, sources, q1);
    s2 := SecondRow(artists, sources, s1, q1.quoteID, RowOf(q1), q2);
    s3 := BlankArtistMoves(artists, sources, s2, q2, q2.quoteID);
    MovedBesideTwin(s2, s3, q1, q2);
  }

  lemma MovedBesideTwin(before: Db, after: Db, q1: Quote, q2: Quote)
    requires q1.artistID == "" && q1.text == q2.text && q1.quoteID != q2.quoteID
    requires q1.quoteID in before.quotes && before.quotes[q1.quoteID] == RowOf(q1)
    requires Moved(before, after, q2.quoteID, q2)
    ensures !NormalTextsUnique(after.quotes)
  {
    StillThere(before.quotes, after.quotes, q1.quoteID, q2.quoteID);
    Collide(after.quotes, q1.quoteID, q2.quoteID);
  }

  /** A catalog that knows the empty artist identifier beside another blank one: the third request
      moves a row of the one artist to the other, where its text already is. */
  lemma BlankTwinsCollide(artists: set<string>, sources: map<string, Source>, blank: string)
    requires "" in artists && blank in artists && blank != "" && IsBlank(blank)
    ensures exists requests: seq<Quote>, states: seq<Db>, n: nat ::
              IsRun(artists, sources, requests, states) && n < |states| && !NormalTextsUnique(states[n].quotes)
  {
    var q1, q2 := Request("1", ""), Request("2", blank);
    var s1, s2, s3 := TwinsMeet(artists, sources, q1, q2);
    RunOfThree(artists, sources, q1, q2, s1, s2, s3);
  }

  lemma StillThere(before: map<string, Row>, after: map<string, Row>, a: string, b: string)
    requires a in before && a != b && after - {b} == before - {b}
    ensures a in after && after[a] == before[a]
  {
    assert a in before - {b};
    assert a in after - {b};
    assert (after - {b})[a] == after[a];
  }

  lemma Collide(quotes: map<string, Row>, a: string, b: string)
    requires a in quotes && b in quotes && a != b
    requires quotes[a].artistID == quotes[b].artistID && quotes[a].normalizedText == quotes[b].normalizedText
    ensures !NormalTextsUnique(quotes)
  {
  }

  lemma RunOfThree(artists: set<string>, sources: map<string, Source>, q1: Quote, q2: Quote, s1: Db, s2: Db, s3: Db)
    requires IsStep(artists, sources, q1, EMPTY, s1) && IsStep(artists, sources, q2, s1, s2)
    requires IsStep(artists, sources, q2, s2, s3) && !NormalTextsUnique(s3.quotes)
    ensures exists requests: seq<Quote>, states: seq<Db>, n: nat ::
              IsRun(artists, sources, requests, states) && n < |states| && !NormalTextsUnique(states[n].quotes)
  {
    var requests, states := ExtendRun(artists, sources, [], [EMPTY], q1, s1);
    requests, states := ExtendRun(artists, sources, requests, states, q2, s2);
    requests, states := ExtendRun(artists, sources, requests, states, q2, s3);
    assert !NormalTextsUnique(states[|states| - 1].quotes);
  }

  lemma ExtendRun(artists: set<string>, sources: map<string, Source>, requests: seq<Quote>, states: seq<Db>,
                  q: Quote, after: Db)
    returns (longer: seq<Quote>, reached: seq<Db>)
    requires IsRun(artists, sources, requests, states) && IsStep(artists, sources, q, states[|states| - 1], after)
    ensures IsRun(artists, sources, longer, reached) && reached[|reached| - 1] == after
  {
    longer, reached := requests + [q], states + [after];
    StepsSnoc((r, s, t) => IsStep(artists, sources, r, s, t), requests, states, q, after);
  }

  lemma StepsSnoc<Q, S>(step: (Q, S, S) -> bool, requests: seq<Q>, states: seq<S>, q: Q, after: S)
    requires |states| == |requests| + 1 && step(q, states[|states| - 1], after)
    requires forall i | 0 <= i < |requests| :: step(requests[i], states[i], states[i + 1])
    ensures var longer, reached := requests + [q], states + [after];
            forall i | 0 <= i < |longer| :: step(longer[i], reached[i], reached[i + 1])
  {
  }

  /** Every state of every run keeps the normal forms of each artist distinct, and stores each row's own,
      exactly when the catalog has no blank twins among its artists. */
  lemma NormalTextsUniqueExactly(artists: set<string>, sources: map<string, Source>)
    ensures NoBlankTwins(artists) <==>
            forall requests: seq<Quote>, states: seq<Db>, n: nat
              | IsRun(artists, sources, requests, states) && n < |states| ::
              NormalTextsUnique(states[n].quotes)
  {
    if NoBlankTwins(artists) {
      forall requests: seq<Quote>, states: seq<Db>, n: nat | IsRun(artists, sources, requests, states) && n < |states|
        ensures NormalTextsUnique(states[n].quotes)
      {
        ReachableIsValid(artists, sources, requests, states, n);
      }
    } else {
      var blank :| blank in artists && blank != "" && IsBlank(blank);
      BlankTwinsCollide(artists, sources, blank);
    }
  }

  // ---------------------------------------------------------------- the near-duplicate search

  /** The incoming text counts as the same quote as a stored one. */
  ghost predicate CountsAs(text: string, stored: string) {
    || Words(text) == Words(stored)
    || Concat(Words(text)) == Concat(Words(stored))
    || Occurs(NormalizeText(text), NormalizeText(stored))
    || ShareAtLeast(Words(text), Words(stored), 95)
    || (ShareAtLeast(Words(text), Words(stored), 85) && NearlyAsLong(Words(text), Words(stored)))
  }

  /** A search finds nothing exactly when no quote of the artist counts as the text; what it finds does,
      and no quote of the artist scores more. */
  lemma BestExactly(quotes: map<string, Row>, artistID: string, text: string, best: Option<string>)
    requires IsBest(quotes, artistID, text, best)
    ensures best.None? <==> forall id <- quotes | quotes[id].artistID == artistID :: !CountsAs(text, quotes[id].text)
    ensures best.Some? ==>
              && best.value in quotes && quotes[best.value].artistID == artistID
              && CountsAs(text, quotes[best.value].text)
              && forall id <- quotes | quotes[id].artistID == artistID ::
                   QuoteMergeScore(text, quotes[id].text) <= QuoteMergeScore(text, quotes[best.value].text)
  {
    forall id | id in quotes
      ensures CountsAs(text, quotes[id].text) <==> QuoteMergeScore(text, quotes[id].text) >= 90
    {
      MergesExactly(text, quotes[id].text);
    }
  }

  // ---------------------------------------------------------------- the store

  class Store {
    const artists: set<string>
    const sources: map<string, Source>
    var quotes: map<string, Row>
    var merges: map<(string, string), int>

    ghost predicate Valid()
      reads this
    {
      QuotesValid(artists, quotes)
    }

    constructor (artists: set<string>, sources: map<string, Source>)
      ensures this.artists == artists && this.sources == sources
      ensures Db(quotes, merges) == EMPTY && Valid()
    {
      this.artists, this.sources, quotes, merges := artists, sources, map[], map[];
    }

    /** The scan over the rows of the artist, in whatever order they come. */
    method ExistingQuote(artistID: string, text: string) returns (best: Option<string>)
      ensures IsBest(quotes, artistID, text, best)
      ensures best.None? <==> forall id <- quotes | quotes[id].artistID == artistID :: !CountsAs(text, quotes[id].text)
    {
      var todo := set id | id in quotes && quotes[id].artistID == artistID;
      ghost var all := todo;
      var bestScore := 0;
      best := None;
      while todo != {}
        invariant todo <= all
        invariant forall id <- all - todo :: QuoteMergeScore(text, quotes[id].text) <= bestScore
        invariant best.None? ==> bestScore == 0
        invariant best.Some? ==> best.value in all && bestScore == QuoteMergeScore(text, quotes[best.value].text)
        decreases |todo|
      {
        var id :| id in todo;
        todo := todo - {id};
        var score := QuoteMergeScore(text, quotes[id].text);
        if score > bestScore {
          best, bestScore := Some(id), score;
        }
      }
      if bestScore < 90 {
        best := None;
      }
      BestExactly(quotes, artistID, text, best);
    }

    method UpsertQuote(q: Quote) returns (result: UpsertResult)
      modifies this
      ensures exists best: Option<string> ::
                && IsBest(old(quotes), q.artistID, q.text, best)
                && (Db(quotes, merges), result) == Upsert(artists, sources, old(Db(quotes, merges)), q, best)
      ensures old(Valid()) && NoBlankTwins(artists) ==> Valid()
    {
      var best := ExistingQuote(q.artistID, q.text);
      var db := Db(quotes, merges);
      if QuotesValid(artists, quotes) && NoBlankTwins(artists) {
        UpsertKeepsValid(artists, sources, db, q, best);
      }
      var outcome := Upsert(artists, sources, db, q, best);
      quotes, merges := outcome.0.quotes, outcome.0.merges;
      return outcome.1;
    }
  }
}
