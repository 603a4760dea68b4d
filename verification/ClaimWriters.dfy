/** Concurrent `RecordClaim` calls on one claim: the read, the merge in Go and the guarded write are
    separate steps of every writer. Any number of writers, any interleaving. */
module ClaimWriters {
  import opened Text
  import opened Claims
  import opened Ratchet

  function RowLevel(row: Row): Level {
    Level(Rank(row.status), row.confidence)
  }

  function ClaimLevel(c: Claim): Level {
    Level(Rank(c.status), c.confidence)
  }

  /** A writer between its read and its write: its claim, the status it found, and what it merged. */
  datatype Pending = Pending(submission: Claim, found: Status, merged: Claim)

  datatype State = State(row: Option<Row>, committed: seq<Claim>, pending: map<nat, Pending>, events: seq<Event>)

  const START := State(None, [], map[], [])

  datatype Action = Begin(writer: nat, submission: Claim) | Commit(writer: nat)

  function Step(s: State, a: Action): State {
    match a
    case Begin(w, request) =>
      var c := Defaulted(request);
      s.(pending := s.pending[w := Pending(c, StatusOf(s.row), PreMerge(s.row, c))])
    case Commit(w) =>
      if w !in s.pending then s
      else
        var p := s.pending[w];
        if !PassesChecks(p.merged) then s.(pending := s.pending - {w})
        else State(Some(Guarded(s.row, RowOf(p.merged))), s.committed + [p.submission], s.pending - {w},
                   s.events + Announced(p.submission.claimID, p.found, p.merged.status))
  }

  function Run(actions: seq<Action>): State {
    if actions == [] then START else Step(Run(actions[..|actions| - 1]), actions[|actions| - 1])
  }

  // ---------------------------------------------------------------- a writer alone

  /** A writer that is not interrupted stores and announces what a call does, and is then done; a claim that
      the table refuses leaves nothing behind. */
  lemma LoneWriterRecords(db: Db, request: Claim, s: State, w: nat)
    requires s.row == Lookup(db.claims, ClaimIDOf(request))
    ensures Record(db, request).1.Recorded? ==>
              var id, after := ClaimIDOf(request), Record(db, request).0;
              Step(Step(s, Begin(w, request)), Commit(w))
              == State(Lookup(after.claims, id), s.committed + [Defaulted(request)], s.pending - {w},
                       s.events + after.events[|db.events|..])
    ensures Record(db, request).1.CheckFailed? ==>
              Step(Step(s, Begin(w, request)), Commit(w)) == s.(pending := s.pending - {w})
  {
    if Record(db, request).1.Recorded? || Record(db, request).1.CheckFailed? {
      BehindChecks(db, request);
      LoneWrite(db, Defaulted(request), s, w);
    }
  }

  lemma BehindChecks(db: Db, request: Claim)
    requires Record(db, request).1.Recorded? || Record(db, request).1.CheckFailed?
    ensures Record(db, request) == Write(db, Defaulted(request)) && Defaulted(request).claimID == ClaimIDOf(request)
  {
  }

  lemma LoneWrite(db: Db, c: Claim, s: State, w: nat)
    requires s.row == Lookup(db.claims, c.claimID)
    ensures var begun := s.(pending := s.pending[w := Pending(c, StatusOf(s.row), PreMerge(s.row, c))]);
            var (after, result) := Write(db, c);
            Step(begun, Commit(w)) ==
            if result.CheckFailed? then s.(pending := s.pending - {w})
            else State(Lookup(after.claims, c.claimID), s.committed + [c], s.pending - {w},
                       s.events + after.events[|db.events|..])
  {
    var merged := PreMerge(s.row, c);
    CommitOwn(s, w, Pending(c, StatusOf(s.row), merged));
    NewEvents(db.events, Announced(c.claimID, StatusOf(s.row), merged.status));
  }

  lemma NewEvents(events: seq<Event>, more: seq<Event>)
    ensures |events| <= |events + more| && (events + more)[|events|..] == more
  {
  }

  lemma CommitOwn(s: State, w: nat, p: Pending)
    ensures Step(s.(pending := s.pending[w := p]), Commit(w)) ==
            if !PassesChecks(p.merged) then s.(pending := s.pending - {w})
            else State(Some(Guarded(s.row, RowOf(p.merged))), s.committed + [p.submission], s.pending - {w},
                       s.events + Announced(p.submission.claimID, p.found, p.merged.status))
  {
    assert s.pending[w := p] - {w} == s.pending - {w};
  }

  // ---------------------------------------------------------------- rank and confidence

  lemma MergeLevel(row: Row, c: Claim)
    ensures ClaimLevel(PreMerge(Some(row), c)) == Higher(RowLevel(row), ClaimLevel(c))
  {
  }

  lemma GuardLevel(row: Row, merged: Claim)
    ensures RowLevel(Guarded(Some(row), RowOf(merged))) == Higher(RowLevel(row), ClaimLevel(merged))
  {
  }

  /** Whatever a writer merged, writing it now has the effect of its own claim alone. */
  ghost predicate Harmless(row: Option<Row>, p: Pending) {
    match row
    case None => p.merged == p.submission
    case Some(r) => Higher(RowLevel(r), ClaimLevel(p.merged)) == Higher(RowLevel(r), ClaimLevel(p.submission))
  }

  ghost predicate Inv(s: State) {
    && (s.row.None? <==> s.committed == [])
    && (s.row.Some? ==> RowLevel(s.row.value) == Highest(Levels(s.committed, ClaimLevel)))
    && forall w <- s.pending :: Harmless(s.row, s.pending[w])
  }

  ghost predicate RowNotBelow(before: State, after: State) {
    before.row.Some? ==> after.row.Some? && AtMost(RowLevel(before.row.value), RowLevel(after.row.value))
  }

  lemma HarmlessLater(row: Row, later: Row, p: Pending)
    requires Harmless(Some(row), p) && AtMost(RowLevel(row), RowLevel(later))
    ensures Harmless(Some(later), p)
  {
  }

  lemma CommitStep(s: State, p: Pending) returns (row: Row)
    requires Inv(s) && Harmless(s.row, p)
    ensures row == Guarded(s.row, RowOf(p.merged))
    ensures RowLevel(row) == Highest(Levels(s.committed + [p.submission], ClaimLevel))
    ensures s.row.Some? ==> AtMost(RowLevel(s.row.value), RowLevel(row))
    ensures forall w <- s.pending :: Harmless(Some(row), s.pending[w])
  {
    row := Guarded(s.row, RowOf(p.merged));
    LevelsSnoc(s.committed, ClaimLevel, p.submission);
    if s.row.Some? {
      GuardLevel(s.row.value, p.merged);
      forall w | w in s.pending
        ensures Harmless(Some(row), s.pending[w])
      {
        HarmlessLater(s.row.value, row, s.pending[w]);
      }
    }
  }

  lemma StepKeepsInv(s: State, a: Action)
    requires Inv(s)
    ensures Inv(Step(s, a)) && RowNotBelow(s, Step(s, a))
  {
    match a
    case Begin(w, request) =>
      if s.row.Some? {
        MergeLevel(s.row.value, Defaulted(request));
        StaleReadIsHarmless(RowLevel(s.row.value), RowLevel(s.row.value), ClaimLevel(Defaulted(request)));
      }
    case Commit(w) =>
      if w in s.pending && PassesChecks(s.pending[w].merged) {
        var row := CommitStep(s, s.pending[w]);
      }
  }

  lemma {:induction false} RunKeepsInv(actions: seq<Action>)
    ensures Inv(Run(actions))
    decreases |actions|
  {
    if actions != [] {
      RunKeepsInv(actions[..|actions| - 1]);
      StepKeepsInv(Run(actions[..|actions| - 1]), actions[|actions| - 1]);
    }
  }

  /** In every interleaving the stored status rank and confidence are the maxima over the committed
      claims, and no action lowers either. */
  lemma StrongestClaimSurvives(actions: seq<Action>, next: Action)
    ensures var s := Run(actions);
            && (s.row.None? <==> s.committed == [])
            && (s.row.Some? ==>
                  && (forall c <- s.committed :: Rank(c.status) <= Rank(s.row.value.status))
                  && (forall c <- s.committed :: c.confidence <= s.row.value.confidence)
                  && (exists c <- s.committed :: Rank(c.status) == Rank(s.row.value.status))
                  && (exists c <- s.committed :: c.confidence == s.row.value.confidence))
            && (s.row.Some? ==>
                  var later := Step(s, next).row;
                  && later.Some? && Rank(s.row.value.status) <= Rank(later.value.status)
                  && s.row.value.confidence <= later.value.confidence)
  {
    var s := Run(actions);
    RunKeepsInv(actions);
    StepKeepsInv(s, next);
    if s.row.Some? {
      HighestOf(s.committed, ClaimLevel);
      assert forall c <- s.committed :: AtMost(ClaimLevel(c), RowLevel(s.row.value));
    }
  }

  // ---------------------------------------------------------------- where the origin comes from

  ghost predicate AllNamed(actions: seq<Action>) {
    forall a <- actions | a.Begin? :: a.submission.origin != ""
  }

  /** A committed claim of that rank names that provider. */
  ghost predicate NamedAt(rank: nat, origin: string, claims: seq<Claim>) {
    exists c <- claims :: Rank(c.status) == rank && c.origin == origin != ""
  }

  ghost predicate OriginInv(s: State) {
    && (s.row.Some? ==> NamedAt(Rank(s.row.value.status), s.row.value.origin, s.committed))
    && forall w <- s.pending ::
         var p := s.pending[w]; NamedAt(Rank(p.merged.status), p.merged.origin, s.committed + [p.submission])
  }

  lemma NamedAmongMore(rank: nat, origin: string, fewer: seq<Claim>, more: seq<Claim>)
    requires NamedAt(rank, origin, fewer) && forall c <- fewer :: c in more
    ensures NamedAt(rank, origin, more)
  {
    var c :| c in fewer && Rank(c.status) == rank && c.origin == origin != "";
    assert c in more;
  }

  lemma BeginOrigin(s: State, c: Claim)
    requires OriginInv(s) && c.origin != ""
    ensures NamedAt(Rank(PreMerge(s.row, c).status), PreMerge(s.row, c).origin, s.committed + [c])
  {
    assert c in s.committed + [c];
    if s.row.Some? {
      NamedAmongMore(Rank(s.row.value.status), s.row.value.origin, s.committed, s.committed + [c]);
    }
  }

  lemma CommitOrigin(s: State, p: Pending)
    requires OriginInv(s) && NamedAt(Rank(p.merged.status), p.merged.origin, s.committed + [p.submission])
    ensures var row := Guarded(s.row, RowOf(p.merged));
            NamedAt(Rank(row.status), row.origin, s.committed + [p.submission])
    ensures forall w <- s.pending ::
              var r := s.pending[w];
              NamedAt(Rank(r.merged.status), r.merged.origin, s.committed + [p.submission] + [r.submission])
  {
    var more := s.committed + [p.submission];
    if s.row.Some? {
      NamedAmongMore(Rank(s.row.value.status), s.row.value.origin, s.committed, more);
    }
    forall w | w in s.pending
      ensures var r := s.pending[w]; NamedAt(Rank(r.merged.status), r.merged.origin, more + [r.submission])
    {
      var r := s.pending[w];
      NamedAmongMore(Rank(r.merged.status), r.merged.origin, s.committed + [r.submission], more + [r.submission]);
    }
  }

  lemma StepKeepsOrigin(s: State, a: Action)
    requires OriginInv(s) && (a.Begin? ==> a.submission.origin != "")
    ensures OriginInv(Step(s, a))
  {
    match a
    case Begin(w, request) =>
      BeginOrigin(s, Defaulted(request));
    case Commit(w) =>
      if w in s.pending && PassesChecks(s.pending[w].merged) {
        CommitOrigin(s, s.pending[w]);
      }
  }

  /** When every claim names its provider, the stored origin is that of a committed claim of the stored
      status rank. */
  lemma {:induction false} OriginHasStoredRank(actions: seq<Action>)
    requires AllNamed(actions)
    ensures OriginInv(Run(actions))
    ensures var s := Run(actions);
            s.row.Some? ==> NamedAt(Rank(s.row.value.status), s.row.value.origin, s.committed)
    decreases |actions|
  {
    if actions != [] {
      var before, last := actions[..|actions| - 1], actions[|actions| - 1];
      assert last in actions && forall a <- before :: a in actions;
      OriginHasStoredRank(before);
      StepKeepsOrigin(Run(before), last);
    }
  }

  // ---------------------------------------------------------------- when the events are true

  /** Two calls announce the same exactly when they saw the same change, or neither saw one. */
  lemma SameAnnouncement(id: string, found: Status, written: Status, before: Status, after: Status)
    ensures Announced(id, found, written) == Announced(id, before, after) <==>
            (found == before && written == after) || (found == written && before == after)
  {
    if found != written {
      assert Announced(id, found, written)[0] == StateChanged(id, found, written);
    }
    if before != after {
      assert Announced(id, before, after)[0] == StateChanged(id, before, after);
    }
  }

  /** Whatever row a claim was merged with and whatever row it meets when it is written: the row takes
      the status that is announced exactly when there is none, or it has that status, or the guard
      lets the claim win. */
  lemma AnnouncedStatusIsStoredExactly(read: Option<Row>, row: Option<Row>, c: Claim)
    ensures var merged := PreMerge(read, c);
            StatusOf(Some(Guarded(row, RowOf(merged)))) == merged.status <==>
            row.None? || merged.status == row.value.status || Wins(RowOf(merged), row.value)
  {
  }

  /** For any snapshot and any row: the events are those of the real change exactly when the row had the
      status that was found and takes the one that was announced, or nothing is announced and nothing
      changes. */
  lemma EventsMatchExactly(read: Option<Row>, row: Option<Row>, c: Claim)
    ensures var merged := PreMerge(read, c);
            Announced(c.claimID, StatusOf(read), merged.status)
            == Announced(c.claimID, StatusOf(row), StatusOf(Some(Guarded(row, RowOf(merged))))) <==>
            || (StatusOf(read) == StatusOf(row)
                && (row.None? || merged.status == row.value.status || Wins(RowOf(merged), row.value)))
            || (StatusOf(read) == merged.status && row.Some?
                && (merged.status == row.value.status || !Wins(RowOf(merged), row.value)))
            || (StatusOf(read) == merged.status == Unset && row.None?)
  {
    var merged := PreMerge(read, c);
    SameAnnouncement(c.claimID, StatusOf(read), merged.status, StatusOf(row),
                     StatusOf(Some(Guarded(row, RowOf(merged)))));
    AnnouncedStatusIsStoredExactly(read, row, c);
  }

  /** What a writer found is a status or nothing, and what it would write is that status or a higher
      one; once something was found there is a row. */
  ghost predicate ReadInv(s: State) {
    && (s.row.Some? ==> Allowed(s.row.value.status))
    && forall w <- s.pending ::
         var p := s.pending[w];
         && (p.found != Unset ==> s.row.Some?)
         && (Allowed(p.merged.status) ==> p.merged.status == p.found || Rank(p.found) < Rank(p.merged.status))
  }

  lemma StepKeepsReadInv(s: State, a: Action)
    requires ReadInv(s)
    ensures ReadInv(Step(s, a))
  {
    match a
    case Begin(w, request) => GuardAgreesWithMerge(s.row, Defaulted(request));
    case Commit(w) =>
  }

  lemma {:induction false} RunKeepsReadInv(actions: seq<Action>)
    ensures ReadInv(Run(actions))
    decreases |actions|
  {
    if actions != [] {
      RunKeepsReadInv(actions[..|actions| - 1]);
      StepKeepsReadInv(Run(actions[..|actions| - 1]), actions[|actions| - 1]);
    }
  }

  predicate CanCommit(s: State, w: nat) {
    w in s.pending && PassesChecks(s.pending[w].merged)
  }

  /** Committing emits the events of the change that the row really makes. */
  ghost predicate TellsTheTruth(s: State, w: nat)
    requires CanCommit(s, w)
  {
    var after := Step(s, Commit(w));
    after.events == s.events + Announced(s.pending[w].submission.claimID, StatusOf(s.row), StatusOf(after.row))
  }

  /** In every state of every interleaving a write tells the truth exactly when the row still has the
      status its writer found, or the writer kept the status it found and the guard keeps the row. */
  lemma EventsAreTrueExactly(actions: seq<Action>, w: nat)
    requires CanCommit(Run(actions), w)
    ensures var s := Run(actions);
            var p := s.pending[w];
            TellsTheTruth(s, w) <==>
            || p.found == StatusOf(s.row)
            || (p.found == p.merged.status && s.row.Some? && !Wins(RowOf(p.merged), s.row.value))
  {
    RunKeepsReadInv(actions);
    TruthOfCommit(Run(actions), w);
  }

  lemma TruthOfCommit(s: State, w: nat)
    requires ReadInv(s) && CanCommit(s, w)
    ensures var p := s.pending[w];
            TellsTheTruth(s, w) <==>
            || p.found == StatusOf(s.row)
            || (p.found == p.merged.status && s.row.Some? && !Wins(RowOf(p.merged), s.row.value))
  {
    var p, after := s.pending[w], Step(s, Commit(w));
    SameTail(s.events, Announced(p.submission.claimID, p.found, p.merged.status),
             Announced(p.submission.claimID, StatusOf(s.row), StatusOf(after.row)));
    SameAnnouncement(p.submission.claimID, p.found, p.merged.status, StatusOf(s.row), StatusOf(after.row));
  }

  lemma SameTail(events: seq<Event>, xs: seq<Event>, ys: seq<Event>)
    ensures events + xs == events + ys <==> xs == ys
  {
    if events + xs == events + ys {
      assert xs == (events + xs)[|events|..] && ys == (events + ys)[|events|..];
    }
  }

  /** The events of a write tell the truth when the row is still the one that was read. */
  lemma FreshWriterTellsTheTruth(row: Option<Row>, request: Claim)
    requires row.Some? ==> Allowed(row.value.status)
    ensures var c := Defaulted(request);
            var merged := PreMerge(row, c);
            PassesChecks(merged) ==>
              Announced(c.claimID, StatusOf(row), merged.status)
              == Announced(c.claimID, StatusOf(row), StatusOf(Some(Guarded(row, RowOf(merged)))))
  {
    EventsMatchExactly(row, row, Defaulted(request));
  }

  function Sample(status: Status): Claim {
    Claim("c", "sample", "recording", "d", "recording", "s", "", status, 1.0, "curated")
  }

  lemma RunSnoc(actions: seq<Action>, a: Action)
    ensures Run(actions + [a]) == Step(Run(actions), a)
  {
    assert (actions + [a])[..|actions|] == actions;
  }

  lemma SampleIsDefaulted(status: Status)
    requires !status.Unset?
    ensures Defaulted(Sample(status)) == Sample(status)
  {
    assert TrimSpace("c") == "c";
  }

  lemma TwoFirstReaders(strong: Claim, weak: Claim) returns (actions: seq<Action>)
    requires Defaulted(strong) == strong && Defaulted(weak) == weak
    ensures var s := Run(actions);
            s.row.None? && s.pending == map[1 := Pending(strong, Unset, strong), 2 := Pending(weak, Unset, weak)]
  {
    RunSnoc([], Begin(1, strong));
    RunSnoc([] + [Begin(1, strong)], Begin(2, weak));
    actions := [] + [Begin(1, strong)] + [Begin(2, weak)];
  }

  lemma FirstWrite(s: State, strong: Claim, weak: Claim)
    requires s.row.None? && PassesChecks(strong)
    requires s.pending == map[1 := Pending(strong, Unset, strong), 2 := Pending(weak, Unset, weak)]
    ensures var after := Step(s, Commit(1));
            after.row == Some(RowOf(strong)) && 2 in after.pending && after.pending[2] == Pending(weak, Unset, weak)
  {
  }

  lemma LaterWeakerWrite(s: State, strong: Claim, weak: Claim)
    requires strong == Sample(Verified) && weak == Sample(NeedsReview)
    requires s.row == Some(RowOf(strong)) && 2 in s.pending && s.pending[2] == Pending(weak, Unset, weak)
    ensures StatusOf(Step(s, Commit(2)).row) == Verified
    ensures Step(s, Commit(2)).events == s.events + [StateChanged("c", Unset, NeedsReview)]
  {
  }

  /** The last change that was announced is not the stored status. */
  ghost predicate Misannounced(s: State) {
    && s.events != [] && s.events[|s.events| - 1] == StateChanged("c", Unset, NeedsReview)
    && StatusOf(s.row) == Verified
  }

  ghost predicate Misleads(actions: seq<Action>, w: nat) {
    && CanCommit(Run(actions), w) && !TellsTheTruth(Run(actions), w)
    && Misannounced(Run(actions + [Commit(w)]))
  }

  /** With a stale read the condition can fail: of two first writers the later and weaker one announces
      a status that the row does not take. */
  lemma StaleWriterAnnouncesUnstoredStatus()
    ensures exists actions, w :: Misleads(actions, w)
  {
    var strong, weak := Sample(Verified), Sample(NeedsReview);
    SampleIsDefaulted(Verified);
    SampleIsDefaulted(NeedsReview);
    var begun := TwoFirstReaders(strong, weak);
    FirstWrite(Run(begun), strong, weak);
    RunSnoc(begun, Commit(1));
    var written := begun + [Commit(1)];
    LaterWeakerWrite(Run(written), strong, weak);
    RunSnoc(written, Commit(2));
    EventsAreTrueExactly(written, 2);
    assert Misleads(written, 2);
  }
}
