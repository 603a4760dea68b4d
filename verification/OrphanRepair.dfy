/** `IntegrityReport` and `RepairOrphans`: sixteen delete rules, run once in a fixed order over a
    database with `ON DELETE CASCADE`, reach the greatest reference-closed part of any catalog. */
module OrphanRepair {

  datatype Table =
    | Artists | QuoteSources | Jobs | Works | Quotes | QuoteTags | QuoteEvidence | JobItems
    | Recordings | Samples | WorkCredits | Performances | Claims | ClaimEvidence

  /** One row of a table: its primary key and the columns that refer to other rows. */
  datatype Row =
    | Artist(id: string)
    | QuoteSource(id: string)
    | Job(id: string)
    | Work(id: string)
    | Quote(id: string, artistID: string, sourceID: string)
    | QuoteTag(quoteID: string, tag: string)
    | EvidenceOfQuote(quoteID: string, position: nat)
    | JobItem(id: string, jobID: string)
    | Recording(id: string, artistID: string, workID: string)
    | Sample(id: string, sourceRecordingID: string, derivativeRecordingID: string)
    | WorkCredit(id: string, workID: string)
    | Performance(id: string, artistID: string, workID: string, recordingID: string)
    | Claim(id: string, subjectType: string, subjectID: string, objectType: string, objectID: string)
    | EvidenceOfClaim(id: string, claimID: string)
  {
    function Table(): Table {
      match this
      case Artist(_) => Artists
      case QuoteSource(_) => QuoteSources
      case Job(_) => Jobs
      case Work(_) => Works
      case Quote(_, _, _) => Quotes
      case QuoteTag(_, _) => QuoteTags
      case EvidenceOfQuote(_, _) => QuoteEvidence
      case JobItem(_, _) => JobItems
      case Recording(_, _, _) => Recordings
      case Sample(_, _, _) => Samples
      case WorkCredit(_, _) => WorkCredits
      case Performance(_, _, _, _) => Performances
      case Claim(_, _, _, _, _) => Claims
      case EvidenceOfClaim(_, _) => ClaimEvidence
    }

    /** The primary key, which is also what a repair lists as its target. */
    function Key(): Key {
      match this
      case QuoteTag(q, tag) => TagKey(q, tag)
      case EvidenceOfQuote(q, position) => EvidenceKey(q, position)
      case _ => IdKey(Table(), id)
    }
  }

  datatype Key = IdKey(table: Table, id: string) | TagKey(quoteID: string, tag: string)
               | EvidenceKey(quoteID: string, position: nat)

  type Database = set<Row>

  /** The PRIMARY KEY constraints. */
  ghost predicate KeysUnique(db: Database) {
    forall r, s | r in db && s in db && r.Key() == s.Key() :: r == s
  }

  /** Rows of one table with equal primary key columns. */
  predicate SamePrimaryKey(r: Row, s: Row) {
    match (r, s)
    case (QuoteTag(q, tag), QuoteTag(p, other)) => q == p && tag == other
    case (EvidenceOfQuote(q, i), EvidenceOfQuote(p, j)) => q == p && i == j
    case (Artist(i), Artist(j)) => i == j
    case (QuoteSource(i), QuoteSource(j)) => i == j
    case (Job(i), Job(j)) => i == j
    case (Work(i), Work(j)) => i == j
    case (Quote(i, _, _), Quote(j, _, _)) => i == j
    case (JobItem(i, _), JobItem(j, _)) => i == j
    case (Recording(i, _, _), Recording(j, _, _)) => i == j
    case (Sample(i, _, _), Sample(j, _, _)) => i == j
    case (WorkCredit(i, _), WorkCredit(j, _)) => i == j
    case (Performance(i, _, _, _), Performance(j, _, _, _)) => i == j
    case (Claim(i, _, _, _, _), Claim(j, _, _, _, _)) => i == j
    case (EvidenceOfClaim(i, _), EvidenceOfClaim(j, _)) => i == j
    case _ => false
  }

  lemma KeyExactly(r: Row, s: Row)
    ensures r.Key() == s.Key() <==> SamePrimaryKey(r, s)
  {
  }

  predicate Exists(db: Database, key: Key) {
    exists r <- db :: r.Key() == key
  }

  // ---------------------------------------------------------------- checks and rules

  /** The sixteen kinds of orphan; an integrity check and a repair rule exist for each. */
  datatype Kind =
    | QuotesMissingArtist | QuotesMissingSource | TagsMissingQuote | EvidenceMissingQuote
    | JobItemsMissingJob | RecordingsMissingArtist | RecordingsMissingWork | SamplesMissingSource
    | SamplesMissingDerivative | CreditsMissingWork | PerformancesMissingArtist
    | PerformancesMissingWork | PerformancesMissingRecording | ClaimsMissingSubject
    | ClaimsMissingObject | ClaimEvidenceMissingClaim

  const RULE_COUNT: nat := 16

  /** The delete rules in the order in which they run. */
  function Rule(n: nat): Kind
    requires n < RULE_COUNT
  {
    if n == 0 then TagsMissingQuote
    else if n == 1 then EvidenceMissingQuote
    else if n == 2 then JobItemsMissingJob
    else if n == 3 then ClaimEvidenceMissingClaim
    else if n == 4 then SamplesMissingSource
    else if n == 5 then SamplesMissingDerivative
    else if n == 6 then QuotesMissingArtist
    else if n == 7 then QuotesMissingSource
    else if n == 8 then RecordingsMissingArtist
    else if n == 9 then RecordingsMissingWork
    else if n == 10 then CreditsMissingWork
    else if n == 11 then PerformancesMissingArtist
    else if n == 12 then PerformancesMissingWork
    else if n == 13 then PerformancesMissingRecording
    else if n == 14 then ClaimsMissingSubject
    else ClaimsMissingObject
  }

  const RULES: seq<Kind> := [
    TagsMissingQuote, EvidenceMissingQuote, JobItemsMissingJob, ClaimEvidenceMissingClaim, SamplesMissingSource,
    SamplesMissingDerivative, QuotesMissingArtist, QuotesMissingSource, RecordingsMissingArtist, RecordingsMissingWork,
    CreditsMissingWork, PerformancesMissingArtist, PerformancesMissingWork, PerformancesMissingRecording,
    ClaimsMissingSubject, ClaimsMissingObject]

  lemma RulesInOrder(n: nat)
    requires n < RULE_COUNT
    ensures |RULES| == RULE_COUNT && Rule(n) == RULES[n]
  {
  }

  /** The integrity checks in the order in which they are counted. */
  function Check(n: nat): Kind
    requires n < RULE_COUNT
  {
    if n == 0 then QuotesMissingArtist
    else if n == 1 then QuotesMissingSource
    else if n == 2 then TagsMissingQuote
    else if n == 3 then EvidenceMissingQuote
    else if n == 4 then JobItemsMissingJob
    else if n == 5 then RecordingsMissingArtist
    else if n == 6 then RecordingsMissingWork
    else if n == 7 then SamplesMissingSource
    else if n == 8 then SamplesMissingDerivative
    else if n == 9 then CreditsMissingWork
    else if n == 10 then PerformancesMissingArtist
    else if n == 11 then PerformancesMissingWork
    else if n == 12 then PerformancesMissingRecording
    else if n == 13 then ClaimsMissingSubject
    else if n == 14 then ClaimsMissingObject
    else ClaimEvidenceMissingClaim
  }

  /** What a rule asks of a row: nothing, that a parent row exists, or what no row can have. */
  datatype Need = Nothing | Parent(key: Key) | Impossible

  function Mandatory(table: Table, id: string): Need {
    Parent(IdKey(table, id))
  }

  function Optional(table: Table, id: string): Need {
    if id == "" then Nothing else Parent(IdKey(table, id))
  }

  /** One end of a claim: a type outside the seven known ones counts as missing. */
  function ClaimEnd(kind: string, id: string): Need {
    if kind == "artist" then Mandatory(Artists, id)
    else if kind == "quote" then Mandatory(Quotes, id)
    else if kind == "recording" then Mandatory(Recordings, id)
    else if kind == "work" then Mandatory(Works, id)
    else if kind == "work_credit" then Mandatory(WorkCredits, id)
    else if kind == "performance" then Mandatory(Performances, id)
    else if kind == "sample" then Mandatory(Samples, id)
    else Impossible
  }

  function Needs(kind: Kind, r: Row): Need {
    match (kind, r)
    case (QuotesMissingArtist, Quote(_, a, _)) => Mandatory(Artists, a)
    case (QuotesMissingSource, Quote(_, _, s)) => Optional(QuoteSources, s)
    case (TagsMissingQuote, QuoteTag(q, _)) => Mandatory(Quotes, q)
    case (EvidenceMissingQuote, EvidenceOfQuote(q, _)) => Mandatory(Quotes, q)
    case (JobItemsMissingJob, JobItem(_, j)) => Mandatory(Jobs, j)
    case (RecordingsMissingArtist, Recording(_, a, _)) => Mandatory(Artists, a)
    case (RecordingsMissingWork, Recording(_, _, w)) => Optional(Works, w)
    case (SamplesMissingSource, Sample(_, s, _)) => Mandatory(Recordings, s)
    case (SamplesMissingDerivative, Sample(_, _, d)) => Mandatory(Recordings, d)
    case (CreditsMissingWork, WorkCredit(_, w)) => Mandatory(Works, w)
    case (PerformancesMissingArtist, Performance(_, a, _, _)) => Mandatory(Artists, a)
    case (PerformancesMissingWork, Performance(_, _, w, _)) => Optional(Works, w)
    case (PerformancesMissingRecording, Performance(_, _, _, rec)) => Optional(Recordings, rec)
    case (ClaimsMissingSubject, Claim(_, t, i, _, _)) => ClaimEnd(t, i)
    case (ClaimsMissingObject, Claim(_, _, _, t, i)) => ClaimEnd(t, i)
    case (ClaimEvidenceMissingClaim, EvidenceOfClaim(_, c)) => Mandatory(Claims, c)
    case _ => Nothing
  }

  /** The row the check counts, the dry run lists and the rule deletes. */
  predicate IsOrphan(kind: Kind, db: Database, r: Row) {
    match Needs(kind, r)
    case Nothing => false
    case Parent(key) => !Exists(db, key)
    case Impossible => true
  }

  function Orphans(kind: Kind, db: Database): set<Row> {
    set r | r in db && IsOrphan(kind, db, r)
  }

  /** Every one of the sixteen counts is zero. */
  ghost predicate ReferenceClosed(db: Database) {
    forall kind, r | r in db :: !IsOrphan(kind, db, r)
  }

  // ---------------------------------------------------------------- the checks, column by column

  predicate HasQuote(db: Database, id: string) {
    exists r <- db :: r.Quote? && r.id == id
  }

  predicate HasRecording(db: Database, id: string) {
    exists r <- db :: r.Recording? && r.id == id
  }

  predicate HasSample(db: Database, id: string) {
    exists r <- db :: r.Sample? && r.id == id
  }

  predicate HasCredit(db: Database, id: string) {
    exists r <- db :: r.WorkCredit? && r.id == id
  }

  predicate HasPerformance(db: Database, id: string) {
    exists r <- db :: r.Performance? && r.id == id
  }

  predicate HasClaim(db: Database, id: string) {
    exists r <- db :: r.Claim? && r.id == id
  }

  /** One end of a claim names a row of the table that its type stands for. */
  predicate EndExists(db: Database, kind: string, id: string) {
    || (kind == "artist" && Artist(id) in db) || (kind == "quote" && HasQuote(db, id))
    || (kind == "recording" && HasRecording(db, id)) || (kind == "work" && Work(id) in db)
    || (kind == "work_credit" && HasCredit(db, id)) || (kind == "performance" && HasPerformance(db, id))
    || (kind == "sample" && HasSample(db, id))
  }

  /** What each check counts, in terms of the columns. */
  predicate Dangles(kind: Kind, db: Database, r: Row) {
    match kind
    case QuotesMissingArtist => r.Quote? && Artist(r.artistID) !in db
    case QuotesMissingSource => r.Quote? && r.sourceID != "" && QuoteSource(r.sourceID) !in db
    case TagsMissingQuote => r.QuoteTag? && !HasQuote(db, r.quoteID)
    case EvidenceMissingQuote => r.EvidenceOfQuote? && !HasQuote(db, r.quoteID)
    case JobItemsMissingJob => r.JobItem? && Job(r.jobID) !in db
    case RecordingsMissingArtist => r.Recording? && Artist(r.artistID) !in db
    case RecordingsMissingWork => r.Recording? && r.workID != "" && Work(r.workID) !in db
    case SamplesMissingSource => r.Sample? && !HasRecording(db, r.sourceRecordingID)
    case SamplesMissingDerivative => r.Sample? && !HasRecording(db, r.derivativeRecordingID)
    case CreditsMissingWork => r.WorkCredit? && Work(r.workID) !in db
    case PerformancesMissingArtist => r.Performance? && Artist(r.artistID) !in db
    case PerformancesMissingWork => r.Performance? && r.workID != "" && Work(r.workID) !in db
    case PerformancesMissingRecording => r.Performance? && r.recordingID != "" && !HasRecording(db, r.recordingID)
    case ClaimsMissingSubject => r.Claim? && !EndExists(db, r.subjectType, r.subjectID)
    case ClaimsMissingObject => r.Claim? && !EndExists(db, r.objectType, r.objectID)
    case ClaimEvidenceMissingClaim => r.EvidenceOfClaim? && !HasClaim(db, r.claimID)
  }

  /** Every reference of the row leads somewhere. */
  predicate RowIntact(db: Database, r: Row) {
    match r
    case Quote(_, artist, source) => Artist(artist) in db && (source != "" ==> QuoteSource(source) in db)
    case QuoteTag(quote, _) => HasQuote(db, quote)
    case EvidenceOfQuote(quote, _) => HasQuote(db, quote)
    case JobItem(_, job) => Job(job) in db
    case Recording(_, artist, work) => Artist(artist) in db && (work != "" ==> Work(work) in db)
    case Sample(_, source, derivative) => HasRecording(db, source) && HasRecording(db, derivative)
    case WorkCredit(_, work) => Work(work) in db
    case Performance(_, artist, work, recording) =>
      && Artist(artist) in db && (work != "" ==> Work(work) in db)
      && (recording != "" ==> HasRecording(db, recording))
    case Claim(_, t, i, u, j) => EndExists(db, t, i) && EndExists(db, u, j)
    case EvidenceOfClaim(_, claim) => HasClaim(db, claim)
    case _ => true
  }

  ghost predicate Intact(db: Database) {
    forall r <- db :: RowIntact(db, r)
  }

  lemma KeyOfArtist(db: Database, id: string)
    ensures Exists(db, IdKey(Artists, id)) <==> Artist(id) in db
  {
    assert Artist(id).Key() == IdKey(Artists, id);
  }

  lemma KeyOfSource(db: Database, id: string)
    ensures Exists(db, IdKey(QuoteSources, id)) <==> QuoteSource(id) in db
  {
    assert QuoteSource(id).Key() == IdKey(QuoteSources, id);
  }

  lemma KeyOfJob(db: Database, id: string)
    ensures Exists(db, IdKey(Jobs, id)) <==> Job(id) in db
  {
    assert Job(id).Key() == IdKey(Jobs, id);
  }

  lemma KeyOfWork(db: Database, id: string)
    ensures Exists(db, IdKey(Works, id)) <==> Work(id) in db
  {
    assert Work(id).Key() == IdKey(Works, id);
  }

  lemma KeyOfQuote(db: Database, id: string)
    ensures Exists(db, IdKey(Quotes, id)) <==> HasQuote(db, id)
  {
  }

  lemma KeyOfRecording(db: Database, id: string)
    ensures Exists(db, IdKey(Recordings, id)) <==> HasRecording(db, id)
  {
  }

  lemma KeyOfSample(db: Database, id: string)
    ensures Exists(db, IdKey(Samples, id)) <==> HasSample(db, id)
  {
  }

  lemma KeyOfCredit(db: Database, id: string)
    ensures Exists(db, IdKey(WorkCredits, id)) <==> HasCredit(db, id)
  {
  }

  lemma KeyOfPerformance(db: Database, id: string)
    ensures Exists(db, IdKey(Performances, id)) <==> HasPerformance(db, id)
  {
  }

  lemma KeyOfClaim(db: Database, id: string)
    ensures Exists(db, IdKey(Claims, id)) <==> HasClaim(db, id)
  {
  }

  lemma EndExactly(db: Database, kind: string, id: string)
    ensures EndExists(db, kind, id) <==> ClaimEnd(kind, id).Parent? && Exists(db, ClaimEnd(kind, id).key)
  {
    KeyOfArtist(db, id);
    KeyOfWork(db, id);
    KeyOfQuote(db, id);
    KeyOfRecording(db, id);
    KeyOfSample(db, id);
    KeyOfCredit(db, id);
    KeyOfPerformance(db, id);
  }

  lemma OrphanOfQuote(kind: Kind, db: Database, r: Row)
    requires r.Quote?
    ensures IsOrphan(kind, db, r) <==> Dangles(kind, db, r)
  {
    KeyOfArtist(db, r.artistID);
    KeyOfSource(db, r.sourceID);
  }

  lemma OrphanOfParts(kind: Kind, db: Database, r: Row)
    requires r.QuoteTag? || r.EvidenceOfQuote? || r.JobItem? || r.WorkCredit?
    ensures IsOrphan(kind, db, r) <==> Dangles(kind, db, r)
  {
    match r
    case QuoteTag(quote, _) => KeyOfQuote(db, quote);
    case EvidenceOfQuote(quote, _) => KeyOfQuote(db, quote);
    case JobItem(_, job) => KeyOfJob(db, job);
    case WorkCredit(_, work) => KeyOfWork(db, work);
  }

  lemma OrphanOfMusic(kind: Kind, db: Database, r: Row)
    requires r.Recording? || r.Sample? || r.Performance?
    ensures IsOrphan(kind, db, r) <==> Dangles(kind, db, r)
  {
    match r
    case Recording(_, artist, work) => KeyOfArtist(db, artist); KeyOfWork(db, work);
    case Sample(_, source, derivative) => KeyOfRecording(db, source); KeyOfRecording(db, derivative);
    case Performance(_, artist, work, recording) =>
      KeyOfArtist(db, artist); KeyOfWork(db, work); KeyOfRecording(db, recording);
  }

  lemma OrphanOfClaims(kind: Kind, db: Database, r: Row)
    requires r.Claim? || r.EvidenceOfClaim?
    ensures IsOrphan(kind, db, r) <==> Dangles(kind, db, r)
  {
    match r
    case Claim(_, t, i, u, j) => EndExactly(db, t, i); EndExactly(db, u, j);
    case EvidenceOfClaim(_, claim) => KeyOfClaim(db, claim);
  }

  /** Each check counts exactly the rows whose column leads nowhere. */
  lemma OrphanExactly(kind: Kind, db: Database, r: Row)
    ensures IsOrphan(kind, db, r) <==> Dangles(kind, db, r)
  {
    if r.Claim? || r.EvidenceOfClaim? {
      OrphanOfClaims(kind, db, r);
    } else if r.Recording? || r.Sample? || r.Performance? {
      OrphanOfMusic(kind, db, r);
    } else if r.Quote? {
      OrphanOfQuote(kind, db, r);
    } else if r.QuoteTag? || r.EvidenceOfQuote? || r.JobItem? || r.WorkCredit? {
      OrphanOfParts(kind, db, r);
    }
  }

  /** The check that would count a row with a loose reference. */
  function LooseCheck(db: Database, r: Row): Kind {
    match r
    case Quote(_, artist, _) => if Artist(artist) in db then QuotesMissingSource else QuotesMissingArtist
    case QuoteTag(_, _) => TagsMissingQuote
    case EvidenceOfQuote(_, _) => EvidenceMissingQuote
    case JobItem(_, _) => JobItemsMissingJob
    case Recording(_, artist, _) => if Artist(artist) in db then RecordingsMissingWork else RecordingsMissingArtist
    case Sample(_, source, _) => if HasRecording(db, source) then SamplesMissingDerivative else SamplesMissingSource
    case WorkCredit(_, _) => CreditsMissingWork
    case Performance(_, artist, work, _) =>
      if Artist(artist) !in db then PerformancesMissingArtist
      else if work != "" && Work(work) !in db then PerformancesMissingWork
      else PerformancesMissingRecording
    case Claim(_, t, i, _, _) => if EndExists(db, t, i) then ClaimsMissingObject else ClaimsMissingSubject
    case _ => ClaimEvidenceMissingClaim
  }

  lemma IntactExactly(db: Database, r: Row)
    ensures RowIntact(db, r) <==> !Dangles(LooseCheck(db, r), db, r)
    ensures RowIntact(db, r) ==> forall kind: Kind :: !Dangles(kind, db, r)
  {
  }

  /** No check counts anything exactly when every reference leads somewhere. */
  lemma ClosedIsIntact(db: Database)
    ensures ReferenceClosed(db) <==> Intact(db)
  {
    forall kind, r | r in db
      ensures IsOrphan(kind, db, r) <==> Dangles(kind, db, r)
    {
      OrphanExactly(kind, db, r);
    }
    forall r | r in db
      ensures RowIntact(db, r) <==> forall kind: Kind :: !IsOrphan(kind, db, r)
    {
      IntactExactly(db, r);
    }
  }

  // ---------------------------------------------------------------- cascades

  /** The kinds whose reference is declared `ON DELETE CASCADE`. */
  predicate Cascades(kind: Kind) {
    kind in {TagsMissingQuote, EvidenceMissingQuote, JobItemsMissingJob, ClaimEvidenceMissingClaim,
             SamplesMissingSource, SamplesMissingDerivative, QuotesMissingArtist,
             RecordingsMissingArtist, CreditsMissingWork, PerformancesMissingArtist}
  }

  predicate IsChildOf(child: Row, parent: Row) {
    exists kind: Kind :: Cascades(kind) && Needs(kind, child) == Parent(parent.Key())
  }

  /** The same, column by column: what `ON DELETE CASCADE` makes a row take with it. */
  predicate Owns(parent: Row, child: Row) {
    match (parent, child)
    case (Artist(a), Quote(_, b, _)) => a == b
    case (Artist(a), Recording(_, b, _)) => a == b
    case (Artist(a), Performance(_, b, _, _)) => a == b
    case (Quote(q, _, _), QuoteTag(p, _)) => q == p
    case (Quote(q, _, _), EvidenceOfQuote(p, _)) => q == p
    case (Job(j), JobItem(_, i)) => j == i
    case (Recording(r, _, _), Sample(_, s, d)) => r == s || r == d
    case (Work(w), WorkCredit(_, v)) => w == v
    case (Claim(c, _, _, _, _), EvidenceOfClaim(_, d)) => c == d
    case _ => false
  }

  /** The kind of reference by which a child hangs on its parent. */
  function HangsBy(parent: Row, child: Row): Kind {
    match child
    case Quote(_, _, _) => QuotesMissingArtist
    case Recording(_, _, _) => RecordingsMissingArtist
    case Performance(_, _, _, _) => PerformancesMissingArtist
    case QuoteTag(_, _) => TagsMissingQuote
    case EvidenceOfQuote(_, _) => EvidenceMissingQuote
    case JobItem(_, _) => JobItemsMissingJob
    case Sample(_, source, _) =>
      if parent.Recording? && parent.id == source then SamplesMissingSource else SamplesMissingDerivative
    case WorkCredit(_, _) => CreditsMissingWork
    case _ => ClaimEvidenceMissingClaim
  }

  lemma OwnedIsChild(parent: Row, child: Row)
    requires Owns(parent, child)
    ensures IsChildOf(child, parent)
  {
    assert Needs(HangsBy(parent, child), child) == Parent(parent.Key());
  }

  lemma KeyNames(r: Row, table: Table, id: string)
    requires r.Key() == IdKey(table, id)
    ensures r.Table() == table && !r.QuoteTag? && !r.EvidenceOfQuote? && r.id == id
  {
  }

  lemma ChildIsOwned(kind: Kind, parent: Row, child: Row)
    requires Cascades(kind) && Needs(kind, child) == Parent(parent.Key())
    ensures Owns(parent, child)
  {
    KeyNames(parent, parent.Key().table, parent.Key().id);
  }

  lemma ChildExactly(parent: Row, child: Row)
    ensures IsChildOf(child, parent) <==> Owns(parent, child)
  {
    if Owns(parent, child) {
      OwnedIsChild(parent, child);
    }
    if kind: Kind :| Cascades(kind) && Needs(kind, child) == Parent(parent.Key()) {
      ChildIsOwned(kind, parent, child);
    }
  }

  function Children(db: Database, parents: set<Row>): set<Row> {
    set r | r in db && exists p <- parents :: IsChildOf(r, p)
  }

  /** A DELETE of `gone`: the rows go, then their children, then the children of those. */
  function DeleteCascading(db: Database, gone: set<Row>): (rest: Database)
    requires gone <= db
    ensures rest <= db - gone
    decreases |db|
  {
    if gone == {} then db
    else DeleteCascading(db - gone, Children(db - gone, gone))
  }

  function ApplyRule(kind: Kind, db: Database): (rest: Database)
    ensures rest <= db
  {
    DeleteCascading(db, Orphans(kind, db))
  }

  /** The database after the first `n` rules. */
  function AfterRules(db: Database, n: nat): (rest: Database)
    requires n <= RULE_COUNT
    ensures rest <= db
  {
    if n == 0 then db else ApplyRule(Rule(n - 1), AfterRules(db, n - 1))
  }

  function Repaired(db: Database): (rest: Database)
    ensures rest <= db
  {
    AfterRules(db, RULE_COUNT)
  }

  // ---------------------------------------------------------------- nothing too much is deleted

  /** Fewer rows can only make more orphans. */
  lemma OrphanAntitone(kind: Kind, small: Database, big: Database, r: Row)
    requires small <= big
    ensures IsOrphan(kind, big, r) ==> IsOrphan(kind, small, r)
  {
  }

  lemma ParentIsKept(kept: Database, db: Database, kind: Kind, r: Row, parent: Row)
    requires KeysUnique(db) && ReferenceClosed(kept) && kept <= db
    requires r in kept && parent in db && Needs(kind, r) == Parent(parent.Key())
    ensures parent in kept
  {
    assert !IsOrphan(kind, kept, r);
    var q :| q in kept && q.Key() == parent.Key();
    assert q == parent;
  }

  lemma {:induction false} CascadeSparesClosed(kept: Database, db: Database, gone: set<Row>)
    requires KeysUnique(db) && ReferenceClosed(kept) && kept <= db - gone && gone <= db
    ensures kept <= DeleteCascading(db, gone)
    decreases |db|
  {
    if gone != {} {
      forall r | r in kept
        ensures r !in Children(db - gone, gone)
      {
        if r in Children(db - gone, gone) {
          var p :| p in gone && IsChildOf(r, p);
          var kind: Kind :| Cascades(kind) && Needs(kind, r) == Parent(p.Key());
          ParentIsKept(kept, db, kind, r, p);
        }
      }
      CascadeSparesClosed(kept, db - gone, Children(db - gone, gone));
    }
  }

  lemma {:induction false} RulesSpareClosed(kept: Database, db: Database, n: nat)
    requires n <= RULE_COUNT
    requires KeysUnique(db) && ReferenceClosed(kept) && kept <= db
    ensures kept <= AfterRules(db, n)
    decreases n
  {
    if n > 0 {
      RulesSpareClosed(kept, db, n - 1);
      RuleSparesClosed(kept, AfterRules(db, n - 1), Rule(n - 1));
    }
  }

  lemma RuleSparesClosed(kept: Database, db: Database, kind: Kind)
    requires KeysUnique(db) && ReferenceClosed(kept) && kept <= db
    ensures kept <= ApplyRule(kind, db)
  {
    forall r | r in kept
      ensures r !in Orphans(kind, db)
    {
      OrphanAntitone(kind, kept, db, r);
    }
    CascadeSparesClosed(kept, db, Orphans(kind, db));
  }

  // ---------------------------------------------------------------- one pass is enough

  /** A child of a deleted row is deleted. */
  lemma {:induction false} CascadeTakesChildren(db: Database, gone: set<Row>, child: Row, parent: Row)
    requires gone <= db
    requires parent in db && parent !in DeleteCascading(db, gone)
    requires child in db && IsChildOf(child, parent)
    ensures child !in DeleteCascading(db, gone)
    decreases |db|
  {
    if gone == {} {
    } else if child in gone {
    } else if parent in gone {
      assert child in Children(db - gone, gone);
    } else {
      CascadeTakesChildren(db - gone, Children(db - gone, gone), child, parent);
    }
  }

  /** The tables a cascade from a table can reach, itself included. */
  function Reach(table: Table): set<Table> {
    match table
    case Quotes => {Quotes, QuoteTags, QuoteEvidence}
    case Recordings => {Recordings, Samples}
    case Claims => {Claims, ClaimEvidence}
    case Artists => {Artists, Quotes, QuoteTags, QuoteEvidence, Recordings, Samples, Performances}
    case Works => {Works, WorkCredits}
    case Jobs => {Jobs, JobItems}
    case _ => {table}
  }

  lemma ChildWithinReach(table: Table, child: Row, parent: Row)
    requires parent.Table() in Reach(table) && IsChildOf(child, parent)
    ensures child.Table() in Reach(table)
  {
  }

  lemma {:induction false} CascadeWithinReach(db: Database, gone: set<Row>, table: Table, r: Row)
    requires gone <= db && forall g <- gone :: g.Table() in Reach(table)
    requires r in db && r !in DeleteCascading(db, gone)
    ensures r.Table() in Reach(table)
    decreases |db|
  {
    if gone != {} && r !in gone {
      var next := Children(db - gone, gone);
      forall c | c in next
        ensures c.Table() in Reach(table)
      {
        var p :| p in gone && IsChildOf(c, p);
        ChildWithinReach(table, c, p);
      }
      CascadeWithinReach(db - gone, next, table, r);
    }
  }

  /** The table a rule deletes from. */
  function ChildTable(kind: Kind): Table {
    match kind
    case QuotesMissingArtist => Quotes
    case QuotesMissingSource => Quotes
    case TagsMissingQuote => QuoteTags
    case EvidenceMissingQuote => QuoteEvidence
    case JobItemsMissingJob => JobItems
    case RecordingsMissingArtist => Recordings
    case RecordingsMissingWork => Recordings
    case SamplesMissingSource => Samples
    case SamplesMissingDerivative => Samples
    case CreditsMissingWork => WorkCredits
    case PerformancesMissingArtist => Performances
    case PerformancesMissingWork => Performances
    case PerformancesMissingRecording => Performances
    case ClaimsMissingSubject => Claims
    case ClaimsMissingObject => Claims
    case ClaimEvidenceMissingClaim => ClaimEvidence
  }

  lemma RuleWithinReach(kind: Kind, db: Database, r: Row)
    requires r in db && r !in ApplyRule(kind, db)
    ensures r.Table() in Reach(ChildTable(kind))
  {
    forall g | g in Orphans(kind, db)
      ensures g.Table() in Reach(ChildTable(kind))
    {
      assert Needs(kind, g) != Nothing;
    }
    CascadeWithinReach(db, Orphans(kind, db), ChildTable(kind), r);
  }

  function Position(kind: Kind): (n: nat)
    ensures n < RULE_COUNT && Rule(n) == kind
  {
    match kind
    case TagsMissingQuote => 0
    case EvidenceMissingQuote => 1
    case JobItemsMissingJob => 2
    case ClaimEvidenceMissingClaim => 3
    case SamplesMissingSource => 4
    case SamplesMissingDerivative => 5
    case QuotesMissingArtist => 6
    case QuotesMissingSource => 7
    case RecordingsMissingArtist => 8
    case RecordingsMissingWork => 9
    case CreditsMissingWork => 10
    case PerformancesMissingArtist => 11
    case PerformancesMissingWork => 12
    case PerformancesMissingRecording => 13
    case ClaimsMissingSubject => 14
    case ClaimsMissingObject => 15
  }

  /** The order of the rules: a reference without a cascade is checked only after every rule that
      can delete from the table it points to. */
  lemma OrderRespectsReferences(earlier: Kind, later: Kind, r: Row, key: Key)
    requires Position(earlier) <= Position(later) && !Cascades(earlier)
    requires Needs(earlier, r) == Parent(key)
    ensures key.IdKey? && key.table !in Reach(ChildTable(later))
  {
  }

  /** No later rule makes new work for an earlier one. */
  lemma RuleKeepsEarlierChecks(earlier: Kind, later: Kind, db: Database)
    requires Position(earlier) <= Position(later)
    requires earlier == later || Orphans(earlier, db) == {}
    ensures Orphans(earlier, ApplyRule(later, db)) == {}
  {
    var rest := ApplyRule(later, db);
    forall r | r in rest
      ensures !IsOrphan(earlier, rest, r)
    {
      assert r !in Orphans(earlier, db);
      if Needs(earlier, r).Parent? {
        var key := Needs(earlier, r).key;
        var p :| p in db && p.Key() == key;
        if p !in rest {
          if Cascades(earlier) {
            assert IsChildOf(r, p);
            CascadeTakesChildren(db, Orphans(later, db), r, p);
          } else {
            RuleWithinReach(later, db, p);
            OrderRespectsReferences(earlier, later, r, key);
          }
        }
      }
    }
  }

  lemma {:induction false} EarlierRulesStayDone(db: Database, n: nat, kind: Kind)
    requires n <= RULE_COUNT && Position(kind) < n
    ensures Orphans(kind, AfterRules(db, n)) == {}
    decreases n
  {
    var later := Rule(n - 1);
    PositionOf(n - 1);
    if Position(kind) < n - 1 {
      EarlierRulesStayDone(db, n - 1, kind);
    }
    RuleKeepsEarlierChecks(kind, later, AfterRules(db, n - 1));
  }

  lemma PositionOf(n: nat)
    requires n < RULE_COUNT
    ensures Position(Rule(n)) == n
  {
  }

  /** All sixteen counts are zero after a single pass. */
  lemma RepairedIsClosed(db: Database)
    ensures ReferenceClosed(Repaired(db))
  {
    forall kind, r | r in Repaired(db)
      ensures !IsOrphan(kind, Repaired(db), r)
    {
      EarlierRulesStayDone(db, RULE_COUNT, kind);
      assert r !in Orphans(kind, Repaired(db));
    }
  }

  /** One pass yields the greatest intact part of the catalog: every reference of a row that is kept leads
      somewhere, and every part of the original in which that holds is contained in the result. */
  lemma RepairedIsGreatestIntact(db: Database)
    requires KeysUnique(db)
    ensures Repaired(db) <= db && Intact(Repaired(db))
    ensures forall kept | kept <= db && Intact(kept) :: kept <= Repaired(db)
  {
    RepairedIsClosed(db);
    ClosedIsIntact(Repaired(db));
    forall kept | kept <= db && Intact(kept)
      ensures kept <= Repaired(db)
    {
      ClosedIsIntact(kept);
      RulesSpareClosed(kept, db, RULE_COUNT);
    }
  }

  /** Exactly the intact catalogs are left alone, so a second pass deletes nothing. */
  lemma SecondPassDeletesNothing(db: Database)
    requires KeysUnique(db)
    ensures Intact(db) <==> Repaired(db) == db
    ensures Repaired(Repaired(db)) == Repaired(db)
  {
    RepairedIsGreatestIntact(db);
    RepairedIsGreatestIntact(Repaired(db));
    assert db <= db;
  }

  /** The rows a check counts, by their columns. */
  function Loose(kind: Kind, db: Database): set<Row> {
    set r | r in db && Dangles(kind, db, r)
  }

  lemma OrphansAreLoose(kind: Kind, db: Database)
    ensures Orphans(kind, db) == Loose(kind, db)
  {
    forall r | r in db
      ensures r in Orphans(kind, db) <==> r in Loose(kind, db)
    {
      OrphanExactly(kind, db, r);
    }
  }

  /** Everything a dry run lists is gone after the pass. */
  lemma DryRunTargetsAreGone(db: Database, kind: Kind)
    ensures Loose(kind, db) !! Repaired(db)
  {
    RepairedIsClosed(db);
    OrphansAreLoose(kind, db);
    forall r | r in Orphans(kind, db)
      ensures r !in Repaired(db)
    {
      OrphanAntitone(kind, Repaired(db), db, r);
    }
  }

  // ---------------------------------------------------------------- accounting

  /** What each of the first `n` rules lists, when its turn comes, as its targets. */
  ghost function TargetSets(db: Database, n: nat): (sets: seq<set<Row>>)
    requires n <= RULE_COUNT
    ensures |sets| == n
  {
    if n == 0 then [] else TargetSets(db, n - 1) + [Orphans(Rule(n - 1), AfterRules(db, n - 1))]
  }

  ghost function Union(sets: seq<set<Row>>): set<Row> {
    if sets == [] then {} else Union(sets[..|sets| - 1]) + sets[|sets| - 1]
  }

  ghost function TotalSize(sets: seq<set<Row>>): nat {
    if sets == [] then 0 else TotalSize(sets[..|sets| - 1]) + |sets[|sets| - 1]|
  }

  ghost function Listed(db: Database): set<Row> {
    Union(TargetSets(db, RULE_COUNT))
  }

  /** The rows that went without being listed. */
  ghost function Cascaded(db: Database): set<Row> {
    db - Repaired(db) - Listed(db)
  }

  lemma DisjointSizes(a: set<Row>, b: set<Row>)
    ensures a !! b ==> |a + b| == |a| + |b|
  {
  }

  /** Steps that each remove at least what they list. */
  ghost predicate Removes(states: seq<Database>, sets: seq<set<Row>>) {
    && |states| == |sets| + 1
    && forall i | 0 <= i < |sets| :: sets[i] <= states[i] && states[i + 1] <= states[i] - sets[i]
  }

  lemma {:induction false} NothingIsRemovedTwice(states: seq<Database>, sets: seq<set<Row>>)
    requires Removes(states, sets)
    ensures |Union(sets)| == TotalSize(sets)
    ensures Union(sets) <= states[0] && Union(sets) !! states[|sets|]
    ensures states[|sets|] <= states[0]
    decreases |sets|
  {
    if sets != [] {
      var last := |sets| - 1;
      NothingIsRemovedTwice(states[..|sets|], sets[..last]);
      DisjointSizes(Union(sets[..last]), sets[last]);
    }
  }

  lemma RuleRemoves(kind: Kind, db: Database)
    ensures Orphans(kind, db) <= db && ApplyRule(kind, db) <= db - Orphans(kind, db)
  {
  }

  /** The databases that the rules find in turn, and what each rule lists. */
  ghost predicate IsPass(states: seq<Database>, sets: seq<set<Row>>) {
    && |states| == |sets| + 1 <= RULE_COUNT + 1
    && forall i | 0 <= i < |sets| ::
         sets[i] == Orphans(Rule(i), states[i]) && states[i + 1] == ApplyRule(Rule(i), states[i])
  }

  lemma {:induction false} PassOf(db: Database, n: nat) returns (states: seq<Database>)
    requires n <= RULE_COUNT
    ensures IsPass(states, TargetSets(db, n)) && states[0] == db && states[n] == AfterRules(db, n)
    decreases n
  {
    if n == 0 {
      states := [db];
    } else {
      states := PassOf(db, n - 1);
      PassSnoc(states, TargetSets(db, n - 1));
      states := states + [AfterRules(db, n)];
    }
  }

  lemma PassSnoc(states: seq<Database>, sets: seq<set<Row>>)
    requires IsPass(states, sets) && |sets| < RULE_COUNT
    ensures var kind, last := Rule(|sets|), states[|sets|];
            IsPass(states + [ApplyRule(kind, last)], sets + [Orphans(kind, last)])
  {
  }

  lemma PassRemoves(states: seq<Database>, sets: seq<set<Row>>)
    requires IsPass(states, sets)
    ensures Removes(states, sets)
  {
    forall i | 0 <= i < |sets|
      ensures sets[i] <= states[i] && states[i + 1] <= states[i] - sets[i]
    {
      RuleRemoves(Rule(i), states[i]);
    }
  }

  lemma {:induction false} CascadeHasParent(db: Database, gone: set<Row>, r: Row) returns (parent: Row)
    requires gone <= db && r in db - gone && r !in DeleteCascading(db, gone)
    ensures parent in db && parent !in DeleteCascading(db, gone) && IsChildOf(r, parent)
    decreases |db|
  {
    var next := Children(db - gone, gone);
    if r in next {
      parent :| parent in gone && IsChildOf(r, parent);
    } else {
      parent := CascadeHasParent(db - gone, next, r);
    }
  }

  lemma RuleTookParent(kind: Kind, db: Database, r: Row) returns (parent: Row)
    requires r in db && r !in Orphans(kind, db) && r !in ApplyRule(kind, db)
    ensures parent in db && parent !in ApplyRule(kind, db) && IsChildOf(r, parent)
  {
    var gone := Orphans(kind, db);
    parent := CascadeHasParent(db, gone, r);
  }

  /** The step during which a row goes that none of them lists. */
  lemma {:induction false} GoneDuring(states: seq<Database>, sets: seq<set<Row>>, r: Row) returns (i: nat)
    requires Removes(states, sets) && r in states[0] && r !in states[|sets|] && r !in Union(sets)
    ensures i < |sets| && r in states[i] && r !in sets[i] && r !in states[i + 1]
    ensures states[|sets|] <= states[i + 1] && states[i] <= states[0]
    decreases |sets|
  {
    i := |sets| - 1;
    NothingIsRemovedTwice(states[..|sets|], sets[..i]);
    if r !in states[i] {
      i := GoneDuring(states[..|sets|], sets[..i], r);
    }
  }

  lemma UnlistedHasParent(states: seq<Database>, sets: seq<set<Row>>, r: Row) returns (parent: Row)
    requires IsPass(states, sets) && r in states[0] && r !in states[|sets|] && r !in Union(sets)
    ensures parent in states[0] && parent !in states[|sets|] && IsChildOf(r, parent)
  {
    PassRemoves(states, sets);
    var i := GoneDuring(states, sets, r);
    parent := RuleTookParent(Rule(i), states[i], r);
  }

  /** Rows are conserved: each row is kept, or listed by exactly one rule, or went by cascade
      because a parent of it went. */
  lemma RowsAreAccountedFor(db: Database)
    ensures |db| == |Repaired(db)| + TotalSize(TargetSets(db, RULE_COUNT)) + |Cascaded(db)|
    ensures forall r <- Cascaded(db) :: exists parent | parent in db - Repaired(db) :: IsChildOf(r, parent)
  {
    var states := PassOf(db, RULE_COUNT);
    PassAccounts(states, TargetSets(db, RULE_COUNT));
  }

  lemma PassAccounts(states: seq<Database>, sets: seq<set<Row>>)
    requires IsPass(states, sets)
    ensures var before, after := states[0], states[|sets|];
            && |before| == |after| + TotalSize(sets) + |before - after - Union(sets)|
            && forall r <- before - after - Union(sets) ::
                 exists parent | parent in before - after :: IsChildOf(r, parent)
  {
    var before, after := states[0], states[|sets|];
    PassRemoves(states, sets);
    NothingIsRemovedTwice(states, sets);
    ThreeParts(before, after, Union(sets), before - after - Union(sets));
    forall r | r in before - after - Union(sets)
      ensures exists parent | parent in before - after :: IsChildOf(r, parent)
    {
      var parent := UnlistedHasParent(states, sets, r);
      assert parent in before - after;
    }
  }

  lemma ThreeParts(all: set<Row>, a: set<Row>, b: set<Row>, c: set<Row>)
    requires a <= all && b <= all && a !! b && c == all - a - b
    ensures |all| == |a| + |b| + |c|
  {
    assert all == a + b + c;
    DisjointSizes(a, b);
    DisjointSizes(a + b, c);
  }
}
