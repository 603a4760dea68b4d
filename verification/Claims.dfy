/** `RecordClaim`: the merge with the stored row in Go, the guarded write in SQL, and the events that are
    emitted; what any sequential run of them stores and announces. */
module Claims {
  import opened Text

  /** A claim status. `Unset` is the blank string: the status of a claim that is not stored. */
  datatype Status =
    | Unset
    | Verified | SourceAttributed | ProviderAttributed | Ambiguous | Disputed | NeedsReview | Refuted
    | OtherStatus(name: string)

  datatype Claim = Claim(claimID: string, kind: string, subjectType: string, subjectID: string, objectType: string,
                         objectID: string, relation: string, status: Status, confidence: real, origin: string)

  datatype Row = Row(kind: string, subjectType: string, subjectID: string, objectType: string, objectID: string,
                     relation: string, status: Status, confidence: real, origin: string)

  datatype Event = StateChanged(claimID: string, before: Status, after: Status)
                 | DisputeRaised(claimID: string, status: Status)

  /** `claimStatusRank`, which the CASE expressions of the guard repeat. */
  function Rank(status: Status): (rank: nat)
    ensures rank <= 6
  {
    match status
    case Verified => 6
    case SourceAttributed => 5
    case ProviderAttributed => 4
    case Ambiguous => 3
    case Disputed => 3
    case NeedsReview => 2
    case Refuted => 1
    case _ => 0
  }

  predicate Allowed(status: Status) {
    !status.Unset? && !status.OtherStatus?
  }

  predicate IsDispute(status: Status) {
    status in {Disputed, Ambiguous, Refuted}
  }

  const KINDS: set<string> := {"attribution", "sample", "credit", "cover", "performance"}
  const RELATIONS: set<string> := {
    "", "attributed_to", "actually_said_by", "recording_of", "composer", "producer", "direct_sample",
    "interpolation", "replay", "cover_interpolation", "lyrics_quote", "performed"}

  function MaxReal(c: real, d: real): real {
    if c > d then c else d
  }

  // ---------------------------------------------------------------- one write

  /** The merge in Go: the stored status wins ties of rank. */
  function PreMerge(stored: Option<Row>, c: Claim): Claim {
    match stored
    case None => c
    case Some(row) =>
      c.(status := if Rank(row.status) >= Rank(c.status) then row.status else c.status,
         confidence := MaxReal(row.confidence, c.confidence),
         origin := if Rank(row.status) > Rank(c.status)
                      || (Rank(row.status) == Rank(c.status) && row.confidence >= c.confidence)
                   then row.origin else c.origin)
  }

  function RowOf(c: Claim): Row {
    Row(c.kind, c.subjectType, c.subjectID, c.objectType, c.objectID, c.relation, c.status, c.confidence, c.origin)
  }

  predicate Wins(excluded: Row, stored: Row) {
    || Rank(excluded.status) > Rank(stored.status)
    || (Rank(excluded.status) == Rank(stored.status) && excluded.confidence >= stored.confidence)
  }

  /** `ON CONFLICT(claim_id) DO UPDATE`: what the claim is about never changes. */
  function Guarded(stored: Option<Row>, excluded: Row): Row {
    match stored
    case None => excluded
    case Some(row) =>
      row.(status := if Wins(excluded, row) then excluded.status else row.status,
           confidence := MaxReal(row.confidence, excluded.confidence),
           origin := if Wins(excluded, row) && excluded.origin != "" then excluded.origin else row.origin)
  }

  predicate PassesChecks(c: Claim) {
    c.kind in KINDS && c.relation in RELATIONS && Allowed(c.status)
  }

  // ---------------------------------------------------------------- one call

  datatype Db = Db(claims: map<string, Row>, events: seq<Event>)

  datatype RecordResult = Recorded(claimID: string) | MissingKind | MissingSubject | MissingObject | CheckFailed

  function About(c: Claim): string {
    c.kind + "|" + c.subjectType + "|" + c.subjectID + "|" + c.objectType + "|" + c.objectID
  }

  /** The identifier hashes these six, with the hash taken as injective. */
  function ClaimIDOf(c: Claim): string {
    var given := TrimSpace(c.claimID);
    if given != "" then given else "tanabata:claim:" + About(c) + "|" + c.relation
  }

  function Defaulted(c: Claim): Claim {
    c.(claimID := ClaimIDOf(c), status := if c.status.Unset? then NeedsReview else c.status)
  }

  function StatusOf(row: Option<Row>): Status {
    if row.Some? then row.value.status else Unset
  }

  /** The events of a call that found one status and wrote another, as the Go code believes. */
  function Announced(id: string, found: Status, written: Status): seq<Event> {
    (if found != written then [StateChanged(id, found, written)] else [])
    + (if !IsDispute(found) && IsDispute(written) then [DisputeRaised(id, written)] else [])
  }

  /** A change is announced when there is one, and a dispute when the claim becomes disputed, ambiguous or
      refuted out of any other state; nothing else is. */
  lemma AnnouncedExactly(id: string, found: Status, written: Status)
    ensures forall e :: e in Announced(id, found, written) <==>
              || (e == StateChanged(id, found, written) && found != written)
              || (e == DisputeRaised(id, written)
                  && (written == Disputed || written == Ambiguous || written == Refuted)
                  && found != Disputed && found != Ambiguous && found != Refuted)
    ensures |Announced(id, found, written)| <= 2
    ensures |Announced(id, found, written)| == 2 ==> Announced(id, found, written)[0].StateChanged?
  {
  }

  /** The call behind the checks of its arguments. */
  function Write(db: Db, c: Claim): (Db, RecordResult) {
    var stored := Lookup(db.claims, c.claimID);
    var merged := PreMerge(stored, c);
    if !PassesChecks(merged) then (db, CheckFailed)
    else (Db(db.claims[c.claimID := Guarded(stored, RowOf(merged))],
             db.events + Announced(c.claimID, StatusOf(stored), merged.status)),
          Recorded(c.claimID))
  }

  function Record(db: Db, request: Claim): (Db, RecordResult) {
    if IsBlank(request.kind) then (db, MissingKind)
    else if IsBlank(request.subjectType) || IsBlank(request.subjectID) then (db, MissingSubject)
    else if IsBlank(request.objectType) || IsBlank(request.objectID) then (db, MissingObject)
    else Write(db, Defaulted(request))
  }

  class ClaimStore {
    var claims: map<string, Row>
    var events: seq<Event>

    constructor ()
      ensures Db(claims, events) == Db(map[], [])
    {
      claims, events := map[], [];
    }

    method RecordClaim(request: Claim) returns (result: RecordResult)
      modifies this
      ensures (Db(claims, events), result) == Record(old(Db(claims, events)), request)
    {
      if IsBlank(request.kind) {
        return MissingKind;
      }
      if IsBlank(request.subjectType) || IsBlank(request.subjectID) {
        return MissingSubject;
      }
      if IsBlank(request.objectType) || IsBlank(request.objectID) {
        return MissingObject;
      }
      var claim := Defaulted(request);
      var stored := Lookup(claims, claim.claimID);
      var found := Unset;
      if stored.Some? {
        found := stored.value.status;
        claim := PreMerge(stored, claim);
      }
      if !PassesChecks(claim) {
        return CheckFailed;
      }
      claims := claims[claim.claimID := Guarded(stored, RowOf(claim))];
      Emit(claim.claimID, found, claim.status);
      return Recorded(claim.claimID);
    }

    /** The two conditional emissions behind the write. */
    method Emit(id: string, found: Status, written: Status)
      modifies this`events
      ensures events == old(events) + Announced(id, found, written)
    {
      if found != written {
        events := events + [StateChanged(id, found, written)];
      }
      if !IsDispute(found) && IsDispute(written) {
        events := events + [DisputeRaised(id, written)];
      }
    }
  }

  // ---------------------------------------------------------------- what one call stores

  /** The statuses by rank, from the weakest; two of them share the third rank. */
  const LADDER: seq<set<Status>> :=
    [{Refuted}, {NeedsReview}, {Ambiguous, Disputed}, {ProviderAttributed}, {SourceAttributed}, {Verified}]

  /** Exactly the statuses of the ladder are stored, and the ranks are their places in it. */
  lemma LadderExactly(status: Status)
    ensures Allowed(status) <==> exists i | 0 <= i < 6 :: status in LADDER[i]
    ensures forall i | 0 <= i < 6 :: status in LADDER[i] <==> Rank(status) == i + 1
  {
    assert LADDER[0] == {Refuted} && LADDER[1] == {NeedsReview} && LADDER[2] == {Ambiguous, Disputed}
        && LADDER[3] == {ProviderAttributed} && LADDER[4] == {SourceAttributed} && LADDER[5] == {Verified};
    if Allowed(status) {
      assert status in LADDER[Rank(status) - 1];
    }
  }

  /** The CHECK constraints of `docs/quality-model.md`. */
  predicate KnownKind(kind: string) {
    kind == "attribution" || kind == "sample" || kind == "credit" || kind == "cover" || kind == "performance"
  }

  predicate KnownRelation(relation: string) {
    || relation == "" || relation == "attributed_to" || relation == "actually_said_by" || relation == "recording_of"
    || relation == "composer" || relation == "producer" || relation == "direct_sample" || relation == "interpolation"
    || relation == "replay" || relation == "cover_interpolation" || relation == "lyrics_quote"
    || relation == "performed"
  }

  lemma KnownExactly(c: Claim)
    ensures c.kind in KINDS <==> KnownKind(c.kind)
    ensures c.relation in RELATIONS <==> KnownRelation(c.relation)
  {
  }

  /** The row of a claim that was not stored. */
  predicate HoldsRequest(row: Row, request: Claim) {
    && row.kind == request.kind && row.relation == request.relation
    && row.subjectType == request.subjectType && row.subjectID == request.subjectID
    && row.objectType == request.objectType && row.objectID == request.objectID
    && row.status == (if request.status == Unset then NeedsReview else request.status)
    && row.confidence == request.confidence && row.origin == request.origin
  }

  /** The row of a claim that was stored: what it is about stays, rank and confidence are the higher ones,
      a draw of ranks keeps the status, and the origin follows the stronger side. */
  predicate HoldsStronger(row: Row, prior: Row, request: Claim) {
    var status := if request.status == Unset then NeedsReview else request.status;
    && row.kind == prior.kind && row.relation == prior.relation
    && row.subjectType == prior.subjectType && row.subjectID == prior.subjectID
    && row.objectType == prior.objectType && row.objectID == prior.objectID
    && row.status == (if Rank(status) > Rank(prior.status) then status else prior.status)
    && row.confidence == MaxReal(prior.confidence, request.confidence)
    && row.origin == (if (Rank(status) > Rank(prior.status)
                          || (Rank(status) == Rank(prior.status) && request.confidence > prior.confidence))
                         && request.origin != ""
                      then request.origin else prior.origin)
  }

  lemma StoredRow(prior: Option<Row>, request: Claim)
    ensures var row := Guarded(prior, RowOf(PreMerge(prior, Defaulted(request))));
            if prior.None? then HoldsRequest(row, request) else HoldsStronger(row, prior.value, request)
  {
  }

  /** Which requests the constraints of the table refuse: an unknown kind or relation, and an unknown
      status unless the stored claim has a status to keep. */
  predicate Refused(prior: Option<Row>, request: Claim) {
    || !KnownKind(request.kind) || !KnownRelation(request.relation)
    || (prior.None? && request.status.OtherStatus?)
  }

  lemma RefusedExactly(prior: Option<Row>, request: Claim)
    requires prior.Some? ==> Allowed(prior.value.status)
    ensures PassesChecks(PreMerge(prior, Defaulted(request))) <==> !Refused(prior, request)
  {
    KnownExactly(request);
  }

  /** What a call answers and stores, for every request: the first thing that is missing, or a refusal, and
      then nothing changes; else the row of its identifier holds the request or the stronger of both. */
  lemma RecordExactly(db: Db, request: Claim, id: string, after: Db, result: RecordResult)
    requires RowsAllowed(db.claims) && (after, result) == Record(db, request) && id == ClaimIDOf(request)
    ensures result == (if IsBlank(request.kind) then MissingKind
                       else if IsBlank(request.subjectType) || IsBlank(request.subjectID) then MissingSubject
                       else if IsBlank(request.objectType) || IsBlank(request.objectID) then MissingObject
                       else if Refused(Lookup(db.claims, id), request) then CheckFailed
                       else Recorded(id))
    ensures !result.Recorded? ==> after == db
    ensures result.Recorded? ==>
              && after.claims.Keys == db.claims.Keys + {id} && after.claims - {id} == db.claims - {id}
              && (id !in db.claims ==> HoldsRequest(after.claims[id], request))
              && (id in db.claims ==> HoldsStronger(after.claims[id], db.claims[id], request))
  {
    var prior := Lookup(db.claims, id);
    StoredRow(prior, request);
    RefusedExactly(prior, request);
    if result.Recorded? {
      RowPut(db.claims, id, Guarded(prior, RowOf(PreMerge(prior, Defaulted(request)))));
    }
  }

  lemma RowPut(claims: map<string, Row>, id: string, row: Row)
    ensures var after := claims[id := row];
            after.Keys == claims.Keys + {id} && after - {id} == claims - {id} && after[id] == row
  {
  }

  /** No part of what a claim is about holds a bar. */
  predicate NoBars(c: Claim) {
    && '|' !in c.kind && '|' !in c.subjectType && '|' !in c.subjectID && '|' !in c.objectType && '|' !in c.objectID
  }

  predicate SameAbout(c: Claim, d: Claim) {
    && c.kind == d.kind && c.subjectType == d.subjectType && c.subjectID == d.subjectID
    && c.objectType == d.objectType && c.objectID == d.objectID && c.relation == d.relation
  }

  /** The six parts of a key from the third one on. */
  function KeyTail(c: Claim): string {
    c.subjectID + ['|'] + (c.objectType + ['|'] + (c.objectID + ['|'] + c.relation))
  }

  lemma KeyLayout(c: Claim)
    ensures About(c) + "|" + c.relation == c.kind + ['|'] + (c.subjectType + ['|'] + KeyTail(c))
  {
    Nested(c.kind, c.subjectType, c.subjectID, c.objectType, c.objectID, c.relation);
  }

  lemma Nested(a: string, b: string, c: string, d: string, e: string, f: string)
    ensures a + "|" + b + "|" + c + "|" + d + "|" + e + "|" + f
         == a + ['|'] + (b + ['|'] + (c + ['|'] + (d + ['|'] + (e + ['|'] + f))))
  {
  }

  /** A given identifier is taken without its padding; without one two requests get the same identifier
      exactly when they are about the same. */
  lemma ClaimIDExactly(c: Claim, d: Claim)
    requires NoBars(c) && NoBars(d)
    ensures !IsBlank(c.claimID) ==> ClaimIDOf(c) == TrimSpace(c.claimID)
    ensures IsBlank(c.claimID) && IsBlank(d.claimID) ==> (ClaimIDOf(c) == ClaimIDOf(d) <==> SameAbout(c, d))
  {
    if IsBlank(c.claimID) && IsBlank(d.claimID) && ClaimIDOf(c) == ClaimIDOf(d) {
      KeyLayout(c);
      KeyLayout(d);
      SamePrefix("tanabata:claim:", About(c), c.relation, About(d), d.relation);
      BarSplits(c.kind, c.subjectType + ['|'] + KeyTail(c), d.kind, d.subjectType + ['|'] + KeyTail(d));
      BarSplits(c.subjectType, KeyTail(c), d.subjectType, KeyTail(d));
      SameTails(c, d);
    }
  }

  lemma SamePrefix(prefix: string, s: string, r: string, t: string, q: string)
    requires prefix + s + "|" + r == prefix + t + "|" + q
    ensures s + "|" + r == t + "|" + q
  {
    assert s + "|" + r == (prefix + s + "|" + r)[|prefix|..];
    assert t + "|" + q == (prefix + t + "|" + q)[|prefix|..];
  }

  lemma SameTails(c: Claim, d: Claim)
    requires NoBars(c) && NoBars(d) && KeyTail(c) == KeyTail(d)
    ensures c.subjectID == d.subjectID && c.objectType == d.objectType && c.objectID == d.objectID
    ensures c.relation == d.relation
  {
    BarSplits(c.subjectID, c.objectType + ['|'] + (c.objectID + ['|'] + c.relation),
              d.subjectID, d.objectType + ['|'] + (d.objectID + ['|'] + d.relation));
    BarSplits(c.objectType, c.objectID + ['|'] + c.relation, d.objectType, d.objectID + ['|'] + d.relation);
    BarSplits(c.objectID, c.relation, d.objectID, d.relation);
  }

  // ---------------------------------------------------------------- sequential runs

  ghost predicate RowsAllowed(claims: map<string, Row>) {
    forall id <- claims :: Allowed(claims[id].status)
  }

  lemma GuardAgreesWithMerge(stored: Option<Row>, c: Claim)
    ensures var merged := PreMerge(stored, c);
            && Guarded(stored, RowOf(merged)).status == merged.status
            && (merged.status == StatusOf(stored) || Rank(StatusOf(stored)) < Rank(merged.status)
                || (stored.None? && !Allowed(merged.status)))
  {
  }

  lemma RecordIsWrite(db: Db, request: Claim)
    ensures Record(db, request) == Write(db, Defaulted(request))
            || (Record(db, request).0 == db && !Record(db, request).1.Recorded?)
  {
  }

  /** What a recorded claim does, as seen from the tables: an event is emitted exactly when the stored
      status changes, it names both statuses, and a change always raises the rank. */
  ghost predicate ToldTruly(db: Db, after: Db, id: string) {
    var found, stored := StatusOf(Lookup(db.claims, id)), StatusOf(Lookup(after.claims, id));
    && after.claims - {id} == db.claims - {id} && id in after.claims
    && after.events == db.events + Announced(id, found, stored)
    && (found != stored ==> Rank(found) < Rank(stored))
  }

  lemma WriteTellsTruly(db: Db, c: Claim)
    requires RowsAllowed(db.claims)
    ensures var (after, result) := Write(db, c);
            && RowsAllowed(after.claims)
            && (result.Recorded? ==> result.claimID == c.claimID && ToldTruly(db, after, c.claimID))
            && (!result.Recorded? ==> after == db)
  {
    var stored := Lookup(db.claims, c.claimID);
    var merged := PreMerge(stored, c);
    GuardAgreesWithMerge(stored, c);
    if PassesChecks(merged) {
      OneRowChanged(db.claims, c.claimID, Guarded(stored, RowOf(merged)));
    }
  }

  /** Called alone, the guard stores what the merge decided, so the events tell the truth. */
  lemma EventsAreTrue(db: Db, request: Claim, after: Db, result: RecordResult)
    requires RowsAllowed(db.claims) && (after, result) == Record(db, request)
    ensures RowsAllowed(after.claims)
    ensures if result.Recorded? then ToldTruly(db, after, result.claimID) else after == db
  {
    RecordIsWrite(db, request);
    WriteTellsTruly(db, Defaulted(request));
  }

  lemma OneRowChanged(claims: map<string, Row>, id: string, row: Row)
    requires RowsAllowed(claims) && Allowed(row.status)
    ensures var after := claims[id := row];
            after - {id} == claims - {id} && Lookup(after, id) == Some(row) && RowsAllowed(after)
  {
  }

  function Run(requests: seq<Claim>): Db {
    if requests == [] then Db(map[], []) else Record(Run(requests[..|requests| - 1]), requests[|requests| - 1]).0
  }

  /** The status changes announced for one claim. */
  function Changes(events: seq<Event>, id: string): seq<Event> {
    if events == [] then []
    else
      var last := events[|events| - 1];
      Changes(events[..|events| - 1], id) + if last.StateChanged? && last.claimID == id then [last] else []
  }

  function Disputes(events: seq<Event>, id: string): nat {
    if events == [] then 0
    else
      var last := events[|events| - 1];
      Disputes(events[..|events| - 1], id) + if last.DisputeRaised? && last.claimID == id then 1 else 0
  }

  /** Where replaying the changes ends. */
  function Replayed(changes: seq<Event>): Status {
    if changes == [] || !changes[|changes| - 1].StateChanged? then Unset else changes[|changes| - 1].after
  }

  /** Consecutive changes chain from `Unset`, each to a higher rank. */
  ghost predicate Chains(changes: seq<Event>) {
    && (forall i | 0 <= i < |changes| :: changes[i].StateChanged? && Rank(changes[i].before) < Rank(changes[i].after))
    && (forall i | 0 < i < |changes| :: changes[i].before == changes[i - 1].after)
    && (changes != [] ==> changes[0].before == Unset)
  }

  lemma {:induction false} SplitEvents(events: seq<Event>, more: seq<Event>, id: string)
    ensures Changes(events + more, id) == Changes(events, id) + Changes(more, id)
    ensures Disputes(events + more, id) == Disputes(events, id) + Disputes(more, id)
    decreases |more|
  {
    if more == [] {
      assert events + more == events;
    } else {
      SplitEvents(events, more[..|more| - 1], id);
      assert (events + more)[..|events + more| - 1] == events + more[..|more| - 1];
    }
  }

  lemma AnnouncedParts(id: string, found: Status, written: Status, other: string)
    ensures Changes(Announced(id, found, written), other)
         == if other == id && found != written then [StateChanged(id, found, written)] else []
    ensures Disputes(Announced(id, found, written), other)
         == if other == id && !IsDispute(found) && IsDispute(written) then 1 else 0
  {
    var first := if found != written then [StateChanged(id, found, written)] else [];
    var second := if !IsDispute(found) && IsDispute(written) then [DisputeRaised(id, written)] else [];
    SplitEvents(first, second, other);
    if first != [] {
      assert first[..0] == [];
    }
    if second != [] {
      assert second[..0] == [];
    }
  }

  /** How many disputes can have been raised on the way to a rank: `refuted` lies below every other
      status and the two other disputed states share one rank. */
  function DisputeBound(rank: nat): nat {
    if rank == 0 then 0 else if rank < 3 then 1 else 2
  }

  ghost predicate Consistent(db: Db, id: string) {
    var status, changes := StatusOf(Lookup(db.claims, id)), Changes(db.events, id);
    && Chains(changes) && Replayed(changes) == status
    && |changes| <= Rank(status) && Disputes(db.events, id) <= DisputeBound(Rank(status))
  }

  lemma ChainsLonger(changes: seq<Event>, id: string, found: Status, stored: Status)
    requires Chains(changes) && Replayed(changes) == found && Rank(found) < Rank(stored)
    ensures var longer := changes + [StateChanged(id, found, stored)];
            Chains(longer) && Replayed(longer) == stored
  {
  }

  /** What a call adds to the history of its claim. */
  lemma NewChanges(db: Db, after: Db, id: string)
    requires ToldTruly(db, after, id)
    ensures var found, stored := StatusOf(Lookup(db.claims, id)), StatusOf(Lookup(after.claims, id));
            && Changes(after.events, id)
               == (if found != stored then Changes(db.events, id) + [StateChanged(id, found, stored)]
                   else Changes(db.events, id))
            && Disputes(after.events, id)
               == Disputes(db.events, id) + (if !IsDispute(found) && IsDispute(stored) then 1 else 0)
  {
    var found, stored := StatusOf(Lookup(db.claims, id)), StatusOf(Lookup(after.claims, id));
    SplitEvents(db.events, Announced(id, found, stored), id);
    AnnouncedParts(id, found, stored, id);
    assert Changes(db.events, id) + [] == Changes(db.events, id);
  }

  lemma SameClaimStaysConsistent(db: Db, after: Db, id: string)
    requires Consistent(db, id) && ToldTruly(db, after, id)
    ensures Consistent(after, id)
  {
    var found, stored := StatusOf(Lookup(db.claims, id)), StatusOf(Lookup(after.claims, id));
    NewChanges(db, after, id);
    if found != stored {
      ChainsLonger(Changes(db.events, id), id, found, stored);
    }
  }

  lemma OthersKept(before: map<string, Row>, after: map<string, Row>, changed: string, id: string)
    requires after - {changed} == before - {changed} && id != changed
    ensures Lookup(after, id) == Lookup(before, id)
  {
    assert Lookup(after - {changed}, id) == Lookup(after, id);
    assert Lookup(before - {changed}, id) == Lookup(before, id);
  }

  lemma OtherEvents(events: seq<Event>, changed: string, found: Status, stored: Status, id: string)
    requires id != changed
    ensures Changes(events + Announced(changed, found, stored), id) == Changes(events, id)
    ensures Disputes(events + Announced(changed, found, stored), id) == Disputes(events, id)
  {
    SplitEvents(events, Announced(changed, found, stored), id);
    AnnouncedParts(changed, found, stored, id);
  }

  lemma OtherClaimStaysConsistent(db: Db, after: Db, changed: string, id: string)
    requires Consistent(db, id) && ToldTruly(db, after, changed) && id != changed
    ensures Consistent(after, id)
  {
    OthersKept(db.claims, after.claims, changed, id);
    OtherEvents(db.events, changed, StatusOf(Lookup(db.claims, changed)), StatusOf(Lookup(after.claims, changed)), id);
  }

  /** Over any sequential run, for any claim: the announced changes chain from nothing to the stored
      status with strictly rising rank, so there are at most six of them, and at most two disputes. */
  lemma {:induction false} AnnouncementsOfAnyRun(requests: seq<Claim>, id: string)
    ensures var db := Run(requests);
            && RowsAllowed(db.claims)
            && Chains(Changes(db.events, id))
            && Replayed(Changes(db.events, id)) == StatusOf(Lookup(db.claims, id))
            && |Changes(db.events, id)| <= Rank(StatusOf(Lookup(db.claims, id))) <= 6
            && Disputes(db.events, id) <= DisputeBound(Rank(StatusOf(Lookup(db.claims, id)))) <= 2
    decreases |requests|
  {
    if requests != [] {
      var before, last := requests[..|requests| - 1], requests[|requests| - 1];
      AnnouncementsOfAnyRun(before, id);
      var (after, result) := Record(Run(before), last);
      EventsAreTrue(Run(before), last, after, result);
      if result.Recorded? {
        if id == result.claimID {
          SameClaimStaysConsistent(Run(before), after, id);
        } else {
          OtherClaimStaysConsistent(Run(before), after, result.claimID, id);
        }
      }
    }
  }

  /** Stored identifiers are neither blank nor padded, so trimming one gives it back. */
  ghost predicate IDsTidy(claims: map<string, Row>) {
    forall id <- claims :: TrimSpace(id) == id != ""
  }

  lemma RelationEnds(relation: string)
    requires relation in RELATIONS
    ensures relation == "" || !IsSpace(relation[|relation| - 1])
  {
  }

  lemma IDIsTidy(c: Claim)
    requires c.relation in RELATIONS
    ensures TrimSpace(ClaimIDOf(c)) == ClaimIDOf(c) != ""
  {
    RelationEnds(c.relation);
    Enclosed("tanabata:claim:", About(c), c.relation);
  }

  lemma Enclosed(first: string, middle: string, last: string)
    requires first != "" && !IsSpace(first[0])
    requires last == "" || !IsSpace(last[|last| - 1])
    ensures var s := first + middle + "|" + last; TrimSpace(s) == s != ""
  {
    var s := first + middle + "|" + last;
    assert s[0] == first[0];
    assert s[|s| - 1] == if last == "" then '|' else last[|last| - 1];
  }

  /** Every run stores tidy identifiers only. */
  lemma {:induction false} StoredIDsAreTidy(requests: seq<Claim>)
    ensures IDsTidy(Run(requests).claims)
    decreases |requests|
  {
    if requests != [] {
      var before, last := requests[..|requests| - 1], requests[|requests| - 1];
      StoredIDsAreTidy(before);
      RecordIsWrite(Run(before), last);
      if Record(Run(before), last).1.Recorded? {
        WriteStoresOne(Run(before), Defaulted(last));
        IDIsTidy(last);
      }
    }
  }

  lemma WriteStoresOne(db: Db, c: Claim)
    ensures var (after, result) := Write(db, c);
            result.Recorded? ==> c.relation in RELATIONS && after.claims.Keys == db.claims.Keys + {c.claimID}
  {
  }

  function Promotion(status: Status): Claim {
    Claim("c", "attribution", "quote", "q", "artist", "a", "attributed_to", status, 1.0, "curated")
  }

  lemma PromotionIsWritten(db: Db, status: Status)
    requires Allowed(status) && Rank(StatusOf(Lookup(db.claims, "c"))) < Rank(status)
    ensures var (after, result) := Record(db, Promotion(status));
            && StatusOf(Lookup(after.claims, "c")) == status
            && after.events == db.events + Announced("c", StatusOf(Lookup(db.claims, "c")), status)
  {
    var c := Promotion(status);
    PromotionHasNoBlanks();
    assert Defaulted(c) == c && PassesChecks(PreMerge(Lookup(db.claims, "c"), c));
    GuardAgreesWithMerge(Lookup(db.claims, "c"), c);
  }

  lemma PromotionHasNoBlanks()
    ensures TrimSpace("c") == "c" && !IsBlank("attribution") && !IsBlank("quote") && !IsBlank("q")
    ensures !IsBlank("artist") && !IsBlank("a")
  {
    Unpadded("attribution");
    Unpadded("quote");
    Unpadded("artist");
  }

  lemma Unpadded(s: string)
    requires s != "" && !IsSpace(s[0]) && !IsSpace(s[|s| - 1])
    ensures TrimSpace(s) == s && !IsBlank(s)
  {
  }

  /** A run after which the claim has this status, after so many changes and disputes. */
  ghost predicate Reaches(requests: seq<Claim>, status: Status, changes: nat, disputes: nat) {
    var db := Run(requests);
    && StatusOf(Lookup(db.claims, "c")) == status
    && |Changes(db.events, "c")| == changes && Disputes(db.events, "c") == disputes
  }

  lemma Promote(requests: seq<Claim>, found: Status, changes: nat, disputes: nat, status: Status)
    returns (longer: seq<Claim>)
    requires Allowed(status) && Rank(found) < Rank(status) && Reaches(requests, found, changes, disputes)
    ensures Reaches(longer, status, changes + 1,
                    disputes + if !IsDispute(found) && IsDispute(status) then 1 else 0)
  {
    var db := Run(requests);
    longer := requests + [Promotion(status)];
    assert longer[..|requests|] == requests;
    PromotionIsWritten(db, status);
    SplitEvents(db.events, Announced("c", found, status), "c");
    AnnouncedParts("c", found, status, "c");
  }

  /** How often a rising path of statuses enters the disputed ones. */
  function DisputesEntered(path: seq<Status>): nat {
    if path == [] then 0
    else
      var n := |path| - 1;
      DisputesEntered(path[..n]) + if IsDispute(path[n]) && (n == 0 || !IsDispute(path[n - 1])) then 1 else 0
  }

  ghost predicate Rises(path: seq<Status>) {
    forall i | 0 <= i < |path| :: Allowed(path[i]) && (i > 0 ==> Rank(path[i - 1]) < Rank(path[i]))
  }

  function LastOf(path: seq<Status>): Status {
    if path == [] then Unset else path[|path| - 1]
  }

  lemma RisingStep(path: seq<Status>)
    requires Rises(path) && path != []
    ensures var init, last := path[..|path| - 1], path[|path| - 1];
            && Rises(init) && Allowed(last) && Rank(LastOf(init)) < Rank(last)
            && DisputesEntered(path)
            == DisputesEntered(init) + if !IsDispute(LastOf(init)) && IsDispute(last) then 1 else 0
  {
  }

  /** Every path of rising rank is the announced history of some run. */
  lemma {:induction false} EveryRisingPathIsARun(path: seq<Status>) returns (requests: seq<Claim>)
    requires Rises(path)
    ensures Reaches(requests, LastOf(path), |path|, DisputesEntered(path))
    decreases |path|
  {
    if path == [] {
      requests := [];
    } else {
      var init, last := path[..|path| - 1], path[|path| - 1];
      RisingStep(path);
      var before := EveryRisingPathIsARun(init);
      requests := Promote(before, LastOf(init), |init|, DisputesEntered(init), last);
    }
  }

  lemma LongestPath() returns (path: seq<Status>)
    ensures Rises(path) && |path| == 6 && path[5] == Verified && DisputesEntered(path) == 2
  {
    path := [Refuted, NeedsReview, Disputed, ProviderAttributed, SourceAttributed, Verified];
    assert path[..5][..4] == path[..4] && path[..4][..3] == path[..3] && path[..3][..2] == path[..2]
        && path[..2][..1] == path[..1];
    assert DisputesEntered(path[..1]) == 1;
    assert DisputesEntered(path[..2]) == 1;
    assert DisputesEntered(path[..3]) == 2;
    assert DisputesEntered(path[..4]) == 2;
    assert DisputesEntered(path[..5]) == 2;
  }

  /** Both bounds are reached. */
  lemma BoundsAreReached()
    ensures exists requests :: Reaches(requests, Verified, 6, 2)
  {
    var path := LongestPath();
    var requests := EveryRisingPathIsARun(path);
  }
}
