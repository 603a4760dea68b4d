/** Concurrent upserts of one quote row: every writer reads a row that may be stale by the time it
    commits, merges in Go, and writes through the SQL guard. Any number of writers, any interleaving. */
module QuoteWriters {
  import opened Text
  import opened Quotes
  import opened Ratchet

  function LevelOf(status: Status, confidence: Confidence): Level {
    Level(Rank(status), confidence)
  }

  function RowLevel(row: Row): Level {
    LevelOf(row.status, row.confidence)
  }

  function QuoteLevel(q: Quote): Level {
    LevelOf(q.status, q.confidence)
  }

  /** A writer between its read and its commit. */
  datatype Pending = Pending(submission: Quote, merged: Quote)

  /** The row, the submissions that were committed so far, in order, and the writers at work. */
  datatype State = State(row: Option<Row>, committed: seq<Quote>, pending: map<nat, Pending>)

  const START := State(None, [], map[])

  /** `Begin` reads the row; whether the duplicate search `matches` it depends on the texts, which are
      left open. `Commit` runs the INSERT of that writer. */
  datatype Action = Begin(writer: nat, submission: Quote, matches: bool) | Commit(writer: nat)

  function Step(sources: map<string, Source>, id: string, s: State, a: Action): State {
    match a
    case Begin(w, q, matches) =>
      var merged := if s.row.Some? && matches then MergeQuotes(ReadQuote(sources, id, s.row.value), q) else q;
      s.(pending := s.pending[w := Pending(q, merged)])
    case Commit(w) =>
      if w !in s.pending then s
      else
        var p := s.pending[w];
        if !Allowed(p.merged.status) then s.(pending := s.pending - {w})
        else State(Some(Guarded(s.row, RowOf(p.merged))), s.committed + [p.submission], s.pending - {w})
  }

  function Run(sources: map<string, Source>, id: string, actions: seq<Action>): State {
    if actions == [] then START
    else Step(sources, id, Run(sources, id, actions[..|actions| - 1]), actions[|actions| - 1])
  }

  // ---------------------------------------------------------------- a writer alone

  /** A writer that is not interrupted does what a sequential upsert does, and is then done; one that is
      refused leaves nothing behind. */
  lemma LoneWriterUpserts(artists: set<string>, sources: map<string, Source>, db: Db, q: Quote, id: string, s: State,
                          w: nat)
    requires s.row == Lookup(db.quotes, id)
    ensures id in db.quotes && Upsert(artists, sources, db, q, Some(id)).1 == Stored(id) ==>
              Step(sources, id, Step(sources, id, s, Begin(w, q, true)), Commit(w))
              == State(Lookup(Upsert(artists, sources, db, q, Some(id)).0.quotes, id), s.committed + [q],
                       s.pending - {w})
    ensures Upsert(artists, sources, db, q, None).1 == Stored(id) ==>
              Step(sources, id, Step(sources, id, s, Begin(w, q, false)), Commit(w))
              == State(Lookup(Upsert(artists, sources, db, q, None).0.quotes, id), s.committed + [q], s.pending - {w})
    ensures Upsert(artists, sources, db, q, None).1 == StatusRejected ==>
              Step(sources, id, Step(sources, id, s, Begin(w, q, false)), Commit(w)) == s.(pending := s.pending - {w})
  {
    LoneMatch(artists, sources, db, q, id, s, w);
    LoneInsert(artists, sources, db, q, id, s, w);
  }

  lemma LoneMatch(artists: set<string>, sources: map<string, Source>, db: Db, q: Quote, id: string, s: State, w: nat)
    requires s.row == Lookup(db.quotes, id)
    ensures id in db.quotes && Upsert(artists, sources, db, q, Some(id)).1 == Stored(id) ==>
              Step(sources, id, Step(sources, id, s, Begin(w, q, true)), Commit(w))
              == State(Lookup(Upsert(artists, sources, db, q, Some(id)).0.quotes, id), s.committed + [q],
                       s.pending - {w})
  {
    if id in db.quotes {
      CommitOwn(sources, id, s, w, q, MergeQuotes(ReadQuote(sources, id, db.quotes[id]), q));
    }
  }

  lemma LoneInsert(artists: set<string>, sources: map<string, Source>, db: Db, q: Quote, id: string, s: State, w: nat)
    requires s.row == Lookup(db.quotes, id)
    ensures Upsert(artists, sources, db, q, None).1 == Stored(id) ==>
              Step(sources, id, Step(sources, id, s, Begin(w, q, false)), Commit(w))
              == State(Lookup(Upsert(artists, sources, db, q, None).0.quotes, id), s.committed + [q], s.pending - {w})
    ensures Upsert(artists, sources, db, q, None).1 == StatusRejected ==>
              Step(sources, id, Step(sources, id, s, Begin(w, q, false)), Commit(w)) == s.(pending := s.pending - {w})
  {
    CommitOwn(sources, id, s, w, q, q);
    assert RowOf(q.(quoteID := CandidateID(q))) == RowOf(q);
  }

  lemma CommitOwn(sources: map<string, Source>, id: string, s: State, w: nat, q: Quote, merged: Quote)
    ensures var begun := s.(pending := s.pending[w := Pending(q, merged)]);
            Step(sources, id, begun, Commit(w)) ==
            if !Allowed(merged.status) then s.(pending := s.pending - {w})
            else State(Some(Guarded(s.row, RowOf(merged))), s.committed + [q], s.pending - {w})
  {
    assert s.pending[w := Pending(q, merged)] - {w} == s.pending - {w};
  }

  // ---------------------------------------------------------------- rank and confidence

  lemma MergeLevel(sources: map<string, Source>, id: string, row: Row, q: Quote)
    ensures QuoteLevel(MergeQuotes(ReadQuote(sources, id, row), q)) == Higher(RowLevel(row), QuoteLevel(q))
  {
    PriorityIsLexicographic(row.status, row.confidence, q.status, q.confidence);
  }

  lemma GuardLevel(row: Row, merged: Quote)
    requires Allowed(row.status) && Allowed(merged.status)
    ensures RowLevel(Guarded(Some(row), RowOf(merged))) == Higher(RowLevel(row), QuoteLevel(merged))
  {
  }

  /** Whatever a writer merged, committing it now has the effect of its own submission alone. */
  ghost predicate Harmless(row: Option<Row>, p: Pending) {
    match row
    case None => p.merged == p.submission
    case Some(r) => Higher(RowLevel(r), QuoteLevel(p.merged)) == Higher(RowLevel(r), QuoteLevel(p.submission))
  }

  ghost predicate Inv(s: State) {
    && (s.row.None? <==> s.committed == [])
    && (s.row.Some? ==>
          Allowed(s.row.value.status) && RowLevel(s.row.value) == Highest(Levels(s.committed, QuoteLevel)))
    && forall w <- s.pending :: Harmless(s.row, s.pending[w])
  }

  /** Neither the rank nor the confidence of the row ever decreases. */
  ghost predicate RowNotBelow(before: State, after: State) {
    before.row.Some? ==> after.row.Some? && AtMost(RowLevel(before.row.value), RowLevel(after.row.value))
  }

  lemma HarmlessLater(row: Row, later: Row, p: Pending)
    requires Harmless(Some(row), p) && AtMost(RowLevel(row), RowLevel(later))
    ensures Harmless(Some(later), p)
  {
  }

  lemma CommitStep(s: State, p: Pending) returns (row: Row)
    requires Inv(s) && Harmless(s.row, p) && Allowed(p.merged.status)
    ensures row == Guarded(s.row, RowOf(p.merged)) && Allowed(row.status)
    ensures RowLevel(row) == Highest(Levels(s.committed + [p.submission], QuoteLevel))
    ensures s.row.Some? ==> AtMost(RowLevel(s.row.value), RowLevel(row))
    ensures forall w <- s.pending :: Harmless(Some(row), s.pending[w])
  {
    row := Guarded(s.row, RowOf(p.merged));
    LevelsSnoc(s.committed, QuoteLevel, p.submission);
    if s.row.Some? {
      GuardLevel(s.row.value, p.merged);
      forall w | w in s.pending
        ensures Harmless(Some(row), s.pending[w])
      {
        HarmlessLater(s.row.value, row, s.pending[w]);
      }
    }
  }

  lemma StepKeepsInv(sources: map<string, Source>, id: string, s: State, a: Action)
    requires Inv(s)
    ensures Inv(Step(sources, id, s, a)) && RowNotBelow(s, Step(sources, id, s, a))
  {
    match a
    case Begin(w, q, matches) =>
      if s.row.Some? {
        MergeLevel(sources, id, s.row.value, q);
        StaleReadIsHarmless(RowLevel(s.row.value), RowLevel(s.row.value), QuoteLevel(q));
      }
    case Commit(w) =>
      if w in s.pending && Allowed(s.pending[w].merged.status) {
        var row := CommitStep(s, s.pending[w]);
      }
  }

  lemma {:induction false} RunKeepsInv(sources: map<string, Source>, id: string, actions: seq<Action>)
    ensures Inv(Run(sources, id, actions))
    decreases |actions|
  {
    if actions != [] {
      RunKeepsInv(sources, id, actions[..|actions| - 1]);
      StepKeepsInv(sources, id, Run(sources, id, actions[..|actions| - 1]), actions[|actions| - 1]);
    }
  }

  /** In every interleaving the row's rank and confidence are the maxima over the committed submissions,
      and no action lowers either. */
  lemma StrongestSubmissionSurvives(sources: map<string, Source>, id: string, actions: seq<Action>, next: Action)
    ensures var s := Run(sources, id, actions);
            && (s.row.None? <==> s.committed == [])
            && (s.row.Some? ==>
                  && (forall q <- s.committed :: Rank(q.status) <= Rank(s.row.value.status))
                  && (forall q <- s.committed :: q.confidence <= s.row.value.confidence)
                  && (exists q <- s.committed :: Rank(q.status) == Rank(s.row.value.status))
                  && (exists q <- s.committed :: q.confidence == s.row.value.confidence))
            && (s.row.Some? ==>
                  var later := Step(sources, id, s, next).row;
                  && later.Some? && Rank(s.row.value.status) <= Rank(later.value.status)
                  && s.row.value.confidence <= later.value.confidence)
  {
    var s := Run(sources, id, actions);
    RunKeepsInv(sources, id, actions);
    StepKeepsInv(sources, id, s, next);
    if s.row.Some? {
      HighestOf(s.committed, QuoteLevel);
      assert forall q <- s.committed :: AtMost(QuoteLevel(q), RowLevel(s.row.value));
    }
  }

  // ---------------------------------------------------------------- where status and origin come from

  /** Every submission names its provider. */
  ghost predicate AllNamed(actions: seq<Action>) {
    forall a <- actions | a.Begin? :: !IsBlank(a.submission.origin)
  }

  /** Status and origin are those of one committed submission. */
  ghost predicate ComesFrom(status: Status, origin: string, quotes: seq<Quote>) {
    exists q <- quotes :: q.status == status && TrimSpace(q.origin) == origin != ""
  }

  ghost predicate OriginInv(s: State) {
    && (s.row.Some? ==> ComesFrom(s.row.value.status, s.row.value.origin, s.committed))
    && forall w <- s.pending ::
         var p := s.pending[w];
         ComesFrom(p.merged.status, TrimSpace(p.merged.origin), s.committed + [p.submission])
  }

  lemma ComesFromLonger(status: Status, origin: string, quotes: seq<Quote>, q: Quote, r: Quote)
    requires ComesFrom(status, origin, quotes + [q])
    ensures ComesFrom(status, origin, quotes + [r] + [q])
    ensures ComesFrom(status, origin, quotes) ==> ComesFrom(status, origin, quotes + [r])
  {
    var f :| f in quotes + [q] && f.status == status && TrimSpace(f.origin) == origin != "";
    assert f in quotes + [r] + [q];
    if ComesFrom(status, origin, quotes) {
      var g :| g in quotes && g.status == status && TrimSpace(g.origin) == origin != "";
      assert g in quotes + [r];
    }
  }

  lemma StepKeepsOrigin(sources: map<string, Source>, id: string, s: State, a: Action)
    requires OriginInv(s) && (s.row.None? <==> s.committed == [])
    requires a.Begin? ==> !IsBlank(a.submission.origin)
    ensures OriginInv(Step(sources, id, s, a))
  {
    match a
    case Begin(w, q, matches) =>
      BeginOrigin(sources, id, s, q, matches);
    case Commit(w) =>
      if w in s.pending && Allowed(s.pending[w].merged.status) {
        CommitOrigin(s, s.pending[w]);
      }
  }

  lemma TrimTwice(s: string)
    ensures TrimSpace(TrimSpace(s)) == TrimSpace(s)
  {
  }

  lemma MergedOrigin(sources: map<string, Source>, id: string, row: Row, q: Quote)
    requires TrimSpace(row.origin) == row.origin != "" && !IsBlank(q.origin)
    ensures var merged := MergeQuotes(ReadQuote(sources, id, row), q);
            || (merged.status == row.status && merged.origin == row.origin)
            || (merged.status == q.status && merged.origin == q.origin)
  {
  }

  lemma BeginOrigin(sources: map<string, Source>, id: string, s: State, q: Quote, matches: bool)
    requires OriginInv(s) && !IsBlank(q.origin)
    ensures var merged := if s.row.Some? && matches then MergeQuotes(ReadQuote(sources, id, s.row.value), q) else q;
            ComesFrom(merged.status, TrimSpace(merged.origin), s.committed + [q])
  {
    assert q in s.committed + [q];
    assert ComesFrom(q.status, TrimSpace(q.origin), s.committed + [q]);
    if s.row.Some? {
      var row := s.row.value;
      var f :| f in s.committed && f.status == row.status && TrimSpace(f.origin) == row.origin != "";
      assert f in s.committed + [q];
      TrimTwice(f.origin);
      assert ComesFrom(row.status, row.origin, s.committed + [q]);
      MergedOrigin(sources, id, row, q);
    }
  }

  lemma CommitOrigin(s: State, p: Pending)
    requires OriginInv(s) && (s.row.None? <==> s.committed == [])
    requires ComesFrom(p.merged.status, TrimSpace(p.merged.origin), s.committed + [p.submission])
    ensures var row := Guarded(s.row, RowOf(p.merged)); ComesFrom(row.status, row.origin, s.committed + [p.submission])
    ensures forall w <- s.pending ::
              var r := s.pending[w];
              ComesFrom(r.merged.status, TrimSpace(r.merged.origin), s.committed + [p.submission] + [r.submission])
  {
    assert RowOf(p.merged).origin == TrimSpace(p.merged.origin);
    if s.row.Some? {
      var row := s.row.value;
      var f :| f in s.committed && f.status == row.status && TrimSpace(f.origin) == row.origin != "";
      assert f in s.committed + [p.submission];
    }
    forall w | w in s.pending
      ensures var r := s.pending[w];
              ComesFrom(r.merged.status, TrimSpace(r.merged.origin), s.committed + [p.submission] + [r.submission])
    {
      var r := s.pending[w];
      ComesFromLonger(r.merged.status, TrimSpace(r.merged.origin), s.committed, r.submission, p.submission);
    }
  }

  lemma {:induction false} RunKeepsOrigin(sources: map<string, Source>, id: string, actions: seq<Action>)
    requires AllNamed(actions)
    ensures OriginInv(Run(sources, id, actions))
    decreases |actions|
  {
    if actions != [] {
      var before, last := actions[..|actions| - 1], actions[|actions| - 1];
      assert last in actions;
      assert forall a <- before :: a in actions;
      RunKeepsOrigin(sources, id, before);
      RunKeepsInv(sources, id, before);
      StepKeepsOrigin(sources, id, Run(sources, id, before), last);
    }
  }

  /** When every submission names its provider, the stored status and origin are those of one committed
      submission, hence of one with the row's rank. */
  lemma OriginBelongsToStatus(sources: map<string, Source>, id: string, actions: seq<Action>)
    requires AllNamed(actions)
    ensures var s := Run(sources, id, actions);
            s.row.Some? ==> exists q <- s.committed ::
              && q.status == s.row.value.status && Rank(q.status) == Rank(s.row.value.status)
              && TrimSpace(q.origin) == s.row.value.origin
  {
    RunKeepsOrigin(sources, id, actions);
    var s := Run(sources, id, actions);
    if s.row.Some? {
      var q :| q in s.committed && q.status == s.row.value.status && TrimSpace(q.origin) == s.row.value.origin != "";
      assert Rank(q.status) == Rank(s.row.value.status);
    }
  }
}
