/** The two operations on the catalog: `IntegrityReport` counts the orphans, `RepairOrphans` lists or
    deletes them, with one audit event for each listed target. */
module Catalog {
  import opened OrphanRepair
  import opened Text

  /** The identifier of an audit event hashes these four, with the hash taken as injective. */
  datatype EventID = EventID(kind: Kind, target: Key, at: string, index: nat)

  /** The targets of each rule, in the order of the rules. */
  datatype RepairResult = RepairResult(applied: bool, targets: seq<seq<Key>>)

  /** `Total()`: the sum of the counts. */
  function Total(targets: seq<seq<Key>>): nat {
    if targets == [] then 0 else Total(targets[..|targets| - 1]) + |targets[|targets| - 1]|
  }

  // ---------------------------------------------------------------- the order of targets

  /** `ORDER BY` on the columns of a key. The targets of one rule are keys of one table. */
  predicate Before(a: Key, b: Key) {
    match (a, b)
    case (IdKey(_, x), IdKey(_, y)) => Less(x, y)
    case (TagKey(p, x), TagKey(q, y)) => Less(p, q) || (p == q && Less(x, y))
    case (EvidenceKey(p, i), EvidenceKey(q, j)) => Less(p, q) || (p == q && i < j)
    case _ => false
  }

  predicate InOrder(a: Key, b: Key) {
    a == b || Before(a, b)
  }

  predicate OneTable(a: Key, b: Key) {
    match (a, b)
    case (IdKey(t, _), IdKey(u, _)) => t == u
    case (TagKey(_, _), TagKey(_, _)) => true
    case (EvidenceKey(_, _), EvidenceKey(_, _)) => true
    case _ => false
  }

  ghost predicate Sorted(list: seq<Key>) {
    forall i, j | 0 <= i < j < |list| :: InOrder(list[i], list[j])
  }

  lemma OrderIsTotal(a: Key, b: Key)
    requires OneTable(a, b)
    ensures InOrder(a, b) || InOrder(b, a)
  {
    match (a, b)
    case (IdKey(_, x), IdKey(_, y)) => LessTotal(x, y);
    case (TagKey(p, x), TagKey(q, y)) => LessTotal(p, q); LessTotal(x, y);
    case (EvidenceKey(p, _), EvidenceKey(q, _)) => LessTotal(p, q);
  }

  lemma TransitiveStrings(a: string, b: string, c: string)
    ensures Less(a, b) && Less(b, c) ==> Less(a, c)
  {
    if Less(a, b) && Less(b, c) {
      LessTransitive(a, b, c);
    }
  }

  lemma OrderIsTransitive(a: Key, b: Key, c: Key)
    requires InOrder(a, b) && InOrder(b, c)
    ensures InOrder(a, c)
  {
    match (a, b, c)
    case (IdKey(_, x), IdKey(_, y), IdKey(_, z)) => TransitiveStrings(x, y, z);
    case (TagKey(p, x), TagKey(q, y), TagKey(r, z)) => TransitiveStrings(p, q, r); TransitiveStrings(x, y, z);
    case (EvidenceKey(p, _), EvidenceKey(q, _), EvidenceKey(r, _)) => TransitiveStrings(p, q, r);
    case _ =>
  }

  lemma ConsSorted(key: Key, list: seq<Key>)
    requires Sorted(list) && forall k <- list :: InOrder(key, k)
    ensures Sorted([key] + list)
  {
    forall j | 0 < j <= |list|
      ensures InOrder(key, ([key] + list)[j])
    {
      assert list[j - 1] in list;
    }
  }

  lemma HeadIsLeast(list: seq<Key>, key: Key)
    requires list != [] && Sorted(list) && InOrder(key, list[0])
    ensures forall k <- list :: InOrder(key, k)
  {
    forall j | 0 <= j < |list|
      ensures InOrder(key, list[j])
    {
      OrderIsTransitive(key, list[0], list[j]);
    }
  }

  /** One more key, in its place. */
  function InsertKey(list: seq<Key>, key: Key): (longer: seq<Key>)
    requires Sorted(list) && forall k <- list :: OneTable(k, key)
    ensures Sorted(longer) && |longer| == |list| + 1
    ensures forall k :: k in longer <==> k in list || k == key
    decreases |list|
  {
    if list == [] then [key]
    else if InOrder(key, list[0]) then
      HeadIsLeast(list, key);
      ConsSorted(key, list);
      [key] + list
    else
      var rest := InsertKey(list[1..], key);
      OrderIsTotal(list[0], key);
      HeadIsLeast(list, list[0]);
      ConsSorted(list[0], rest);
      assert list == [list[0]] + list[1..];
      [list[0]] + rest
  }

  // ---------------------------------------------------------------- listing targets

  /** `list` holds the keys of `rows`, each once, in the order of the keys. */
  ghost predicate Lists(list: seq<Key>, rows: set<Row>) {
    && |list| == |rows|
    && (forall r <- rows :: r.Key() in list)
    && (forall key <- list :: Exists(rows, key))
    && Sorted(list)
  }

  ghost predicate FromTable(rows: set<Row>, table: Table) {
    forall r <- rows :: r.Table() == table
  }

  lemma KeysOfTable(r: Row, s: Row)
    requires r.Table() == s.Table()
    ensures OneTable(r.Key(), s.Key())
  {
  }

  lemma ListedKeys(list: seq<Key>, rows: set<Row>, r: Row)
    requires Lists(list, rows) && FromTable(rows + {r}, r.Table())
    ensures forall key <- list :: OneTable(key, r.Key())
  {
    forall key | key in list
      ensures OneTable(key, r.Key())
    {
      var q :| q in rows && q.Key() == key;
      assert q in rows + {r};
      KeysOfTable(q, r);
    }
  }

  lemma ListsOneMore(list: seq<Key>, rows: set<Row>, r: Row)
    requires Lists(list, rows) && r !in rows && forall key <- list :: OneTable(key, r.Key())
    ensures Lists(InsertKey(list, r.Key()), rows + {r})
  {
    var longer, more := InsertKey(list, r.Key()), rows + {r};
    assert r.Key() in longer;
    forall key | key in longer
      ensures Exists(more, key)
    {
      if key in list {
        var q :| q in rows && q.Key() == key;
        assert q in more;
      } else {
        assert r in more;
      }
    }
  }

  lemma OrphansAreOfTable(kind: Kind, db: Database)
    ensures FromTable(Orphans(kind, db), ChildTable(kind))
  {
  }

  /** `orphanTargets`: the keys of the rows a rule selects. */
  method OrphanTargets(selected: set<Row>, ghost table: Table) returns (list: seq<Key>)
    requires FromTable(selected, table)
    ensures Lists(list, selected)
  {
    list := [];
    var todo := selected;
    ghost var done: set<Row> := {};
    while todo != {}
      invariant done !! todo && done + todo == selected
      invariant Lists(list, done)
      decreases |todo|
    {
      var r :| r in todo;
      ListedKeys(list, done, r);
      ListsOneMore(list, done, r);
      todo, done, list := todo - {r}, done + {r}, InsertKey(list, r.Key());
    }
    assert done == selected;
  }

  ghost predicate ListsAll(targets: seq<seq<Key>>, sets: seq<set<Row>>) {
    |targets| == |sets| && forall k | 0 <= k < |sets| :: Lists(targets[k], sets[k])
  }

  lemma ListsAllMore(targets: seq<seq<Key>>, sets: seq<set<Row>>, list: seq<Key>, rows: set<Row>)
    requires ListsAll(targets, sets) && Lists(list, rows)
    ensures ListsAll(targets + [list], sets + [rows])
  {
  }

  lemma {:induction false} TotalIsTotalSize(targets: seq<seq<Key>>, sets: seq<set<Row>>)
    requires ListsAll(targets, sets)
    ensures Total(targets) == TotalSize(sets)
    decreases |sets|
  {
    if sets != [] {
      var n := |sets| - 1;
      TotalIsTotalSize(targets[..n], sets[..n]);
      assert Lists(targets[n], sets[n]);
    }
  }

  // ---------------------------------------------------------------- audit events

  /** The event names the target at its index in `list`, and the time of the repair. */
  predicate Names(e: EventID, list: seq<Key>, now: string) {
    e.at == now && e.index < |list| && list[e.index] == e.target
  }

  /** The audit events of one rule. */
  method WriteEvents(kind: Kind, list: seq<Key>, now: string, log: set<EventID>)
    returns (written: set<EventID>, ok: bool)
    ensures ok ==> |written| == |log| + |list|
    ensures ok ==> forall e :: e in written <==> e in log || (e.kind == kind && Names(e, list, now))
    ensures !ok ==> exists e <- log :: e.at == now && e.kind == kind
  {
    written, ok := log, true;
    for index := 0 to |list|
      invariant |written| == |log| + index
      invariant forall e :: e in written <==> e in log || (e.kind == kind && Names(e, list, now) && e.index < index)
    {
      var event := EventID(kind, list[index], now, index);
      if event in written {
        assert event in log;
        return written, false;
      }
      written := written + {event};
    }
  }

  /** The log holds the old events and exactly one event for each target the rules so far listed. */
  ghost predicate Logged(audit: set<EventID>, log: set<EventID>, targets: seq<seq<Key>>, now: string) {
    && |log| == |audit| + Total(targets)
    && forall e :: e in log <==> e in audit || IsTarget(e, targets, now)
  }

  /** The event of one of the listed targets. */
  ghost predicate IsTarget(e: EventID, targets: seq<seq<Key>>, now: string) {
    Position(e.kind) < |targets| && Names(e, targets[Position(e.kind)], now)
  }

  lemma LoggedMore(audit: set<EventID>, log: set<EventID>, more: set<EventID>, targets: seq<seq<Key>>,
                   list: seq<Key>, now: string)
    requires |targets| < RULE_COUNT && Logged(audit, log, targets, now)
    requires |more| == |log| + |list|
    requires forall e :: e in more <==> e in log || (e.kind == Rule(|targets|) && Names(e, list, now))
    ensures Logged(audit, more, targets + [list], now)
  {
    PositionOf(|targets|);
    assert (targets + [list])[..|targets|] == targets;
    forall e
      ensures IsTarget(e, targets + [list], now) <==>
              IsTarget(e, targets, now) || (e.kind == Rule(|targets|) && Names(e, list, now))
    {
      assert Position(e.kind) == |targets| ==> e.kind == Rule(|targets|);
    }
  }

  lemma ClashIsWithOldEvent(audit: set<EventID>, log: set<EventID>, targets: seq<seq<Key>>, now: string)
    requires |targets| < RULE_COUNT && Logged(audit, log, targets, now)
    requires exists e <- log :: e.at == now && e.kind == Rule(|targets|)
    ensures exists e <- audit :: e.at == now
  {
    PositionOf(|targets|);
    var e :| e in log && e.at == now && e.kind == Rule(|targets|);
    assert e in audit;
  }

  // ---------------------------------------------------------------- the transaction

  lemma OneRuleMore(db: Database, i: nat, tx: Database, list: seq<Key>)
    requires i < RULE_COUNT && tx == AfterRules(db, i) && Lists(list, Orphans(Rule(i), tx))
    ensures AfterRules(db, i + 1) == if |list| == 0 then tx else ApplyRule(Rule(i), tx)
    ensures TargetSets(db, i + 1) == TargetSets(db, i) + [Orphans(Rule(i), tx)]
  {
    if |list| == 0 {
      NothingToDelete(Rule(i), tx, list);
    }
  }

  lemma NothingToDelete(kind: Kind, db: Database, list: seq<Key>)
    requires Lists(list, Orphans(kind, db)) && |list| == 0
    ensures ApplyRule(kind, db) == db
  {
  }

  /** One rule: list its targets, delete them with their cascades. */
  method RunRule(ghost db: Database, i: nat, tx: Database) returns (list: seq<Key>, rest: Database)
    requires i < RULE_COUNT && tx == AfterRules(db, i)
    ensures rest == AfterRules(db, i + 1)
    ensures exists selected :: Lists(list, selected) && TargetSets(db, i + 1) == TargetSets(db, i) + [selected]
  {
    OrphansAreOfTable(Rule(i), tx);
    list := OrphanTargets(Orphans(Rule(i), tx), ChildTable(Rule(i)));
    OneRuleMore(db, i, tx, list);
    rest := if |list| == 0 then tx else ApplyRule(Rule(i), tx);
  }

  /** The transaction of an applied repair: each rule in turn lists its targets, deletes them with
      their cascades, and writes its events. */
  method RunRules(rows: Database, audit: set<EventID>, now: string)
    returns (targets: seq<seq<Key>>, tx: Database, log: set<EventID>, ok: bool)
    ensures ok ==> tx == Repaired(rows) && ListsAll(targets, TargetSets(rows, RULE_COUNT))
    ensures ok ==> Logged(audit, log, targets, now)
    ensures !ok ==> exists e <- audit :: e.at == now
  {
    targets, tx, log, ok := [], rows, audit, true;
    for i := 0 to RULE_COUNT
      invariant ok && |targets| == i && tx == AfterRules(rows, i)
      invariant ListsAll(targets, TargetSets(rows, i))
      invariant Logged(audit, log, targets, now)
    {
      var list, rest := RunRule(rows, i, tx);
      ghost var selected :| Lists(list, selected) && TargetSets(rows, i + 1) == TargetSets(rows, i) + [selected];
      var more;
      more, ok := WriteEvents(Rule(i), list, now, log);
      if !ok {
        ClashIsWithOldEvent(audit, log, targets, now);
        return;
      }
      LoggedMore(audit, log, more, targets, list, now);
      ListsAllMore(targets, TargetSets(rows, i), list, selected);
      targets, tx, log := targets + [list], rest, more;
    }
  }

  method DryRun(rows: Database) returns (targets: seq<seq<Key>>)
    ensures |targets| == RULE_COUNT
    ensures forall i | 0 <= i < RULE_COUNT :: Lists(targets[i], Loose(Rule(i), rows))
  {
    targets := [];
    for i := 0 to RULE_COUNT
      invariant |targets| == i
      invariant forall k | 0 <= k < i :: Lists(targets[k], Loose(Rule(k), rows))
    {
      OrphansAreOfTable(Rule(i), rows);
      OrphansAreLoose(Rule(i), rows);
      var list := OrphanTargets(Orphans(Rule(i), rows), ChildTable(Rule(i)));
      targets := targets + [list];
    }
  }

  const SQLITE_ISSUE := "sqlite_integrity_check_failed"

  /** The name under which a check is reported. */
  function CheckName(kind: Kind): string {
    match kind
    case QuotesMissingArtist => "quotes_missing_artist"
    case QuotesMissingSource => "quotes_missing_source"
    case TagsMissingQuote => "tags_missing_quote"
    case EvidenceMissingQuote => "evidence_missing_quote"
    case JobItemsMissingJob => "job_items_missing_job"
    case RecordingsMissingArtist => "recordings_missing_artist"
    case RecordingsMissingWork => "recordings_missing_work"
    case SamplesMissingSource => "samples_missing_source"
    case SamplesMissingDerivative => "samples_missing_derivative"
    case CreditsMissingWork => "credits_missing_work"
    case PerformancesMissingArtist => "performances_missing_artist"
    case PerformancesMissingWork => "performances_missing_work"
    case PerformancesMissingRecording => "performances_missing_recording"
    case ClaimsMissingSubject => "claims_missing_subject"
    case ClaimsMissingObject => "claims_missing_object"
    case ClaimEvidenceMissingClaim => "claim_evidence_missing_claim"
  }

  /** The names in the order of the checks. */
  const CHECK_NAMES: seq<string> := [
    "quotes_missing_artist", "quotes_missing_source", "tags_missing_quote", "evidence_missing_quote",
    "job_items_missing_job", "recordings_missing_artist", "recordings_missing_work", "samples_missing_source",
    "samples_missing_derivative", "credits_missing_work", "performances_missing_artist", "performances_missing_work",
    "performances_missing_recording", "claims_missing_subject", "claims_missing_object", "claim_evidence_missing_claim"]

  lemma NamesInOrder(n: nat)
    requires n < RULE_COUNT
    ensures |CHECK_NAMES| == RULE_COUNT && CheckName(Check(n)) == CHECK_NAMES[n]
  {
    assert |CHECK_NAMES| == 16;
    match Check(n) {
      case QuotesMissingArtist =>
      case QuotesMissingSource =>
      case TagsMissingQuote =>
      case EvidenceMissingQuote =>
      case _ =>
    }
  }

  ghost predicate IsIssue(kind: Kind, rows: Database, name: string) {
    Loose(kind, rows) != {} && CheckName(kind) == name
  }

  class Store {
    var rows: Database
    var audit: set<EventID>

    constructor (rows: Database)
      ensures this.rows == rows && audit == {}
    {
      this.rows, audit := rows, {};
    }

    /** `sqlite` is what `PRAGMA integrity_check` answered. */
    method IntegrityReport(sqlite: string) returns (ok: bool, counts: map<Kind, nat>, issues: seq<string>)
      ensures forall kind: Kind :: kind in counts && counts[kind] == |Loose(kind, rows)|
      ensures ok <==> sqlite == "ok" && Intact(rows)
      ensures Ascending(issues)
      ensures forall name :: name in issues <==>
                (sqlite != "ok" && name == SQLITE_ISSUE) || exists kind: Kind :: IsIssue(kind, rows, name)
    {
      ok, counts, issues := true, map[], [];
      if sqlite != "ok" {
        ok, issues := false, [SQLITE_ISSUE];
      }
      for i := 0 to RULE_COUNT
        invariant forall k | 0 <= k < i :: Check(k) in counts
        invariant forall kind <- counts :: counts[kind] == |Loose(kind, rows)|
        invariant ok <==> sqlite == "ok" && forall kind <- counts :: Loose(kind, rows) == {}
        invariant forall name :: name in issues <==>
                    (sqlite != "ok" && name == SQLITE_ISSUE) || exists kind <- counts :: IsIssue(kind, rows, name)
      {
        var kind := Check(i);
        OrphansAreLoose(kind, rows);
        counts := counts[kind := |Orphans(kind, rows)|];
        if counts[kind] > 0 {
          ok, issues := false, issues + [CheckName(kind)];
        }
      }
      forall kind: Kind
        ensures kind in counts
      {
        EveryKindIsChecked(kind);
      }
      IntactMeansNoneLoose(rows);
      issues := SortStrings(issues);
    }

    /** A dry run lists what each rule would find now. Applying runs the rules in one transaction
        and writes one audit event per listed target; a clash of audit identifiers, possible only
        within the second of an earlier repair, rolls everything back. */
    method RepairOrphans(apply: bool, now: string) returns (result: RepairResult, ok: bool)
      modifies this
      ensures result.applied == apply
      ensures !ok ==> apply && rows == old(rows) && audit == old(audit) && exists e <- audit :: e.at == now
      ensures !apply ==> rows == old(rows) && audit == old(audit) && |result.targets| == RULE_COUNT
      ensures !apply ==> forall i | 0 <= i < RULE_COUNT :: Lists(result.targets[i], Loose(Rule(i), rows))
      ensures apply && ok ==> rows == Repaired(old(rows)) && Intact(rows)
      ensures apply && ok ==> ListsAll(result.targets, TargetSets(old(rows), RULE_COUNT))
      ensures apply && ok ==> Logged(old(audit), audit, result.targets, now)
    {
      if !apply {
        var listed := DryRun(rows);
        return RepairResult(false, listed), true;
      }
      var targets, tx, log;
      targets, tx, log, ok := RunRules(rows, audit, now);
      result := RepairResult(true, targets);
      if ok {
        RepairedIsClosed(rows);
        ClosedIsIntact(tx);
        rows, audit := tx, log;
      }
    }
  }

  lemma EveryKindIsChecked(kind: Kind)
    ensures exists n | 0 <= n < RULE_COUNT :: Check(n) == kind
  {
    assert Check(0) == QuotesMissingArtist && Check(1) == QuotesMissingSource && Check(2) == TagsMissingQuote
        && Check(3) == EvidenceMissingQuote && Check(4) == JobItemsMissingJob && Check(5) == RecordingsMissingArtist
        && Check(6) == RecordingsMissingWork && Check(7) == SamplesMissingSource && Check(8) == SamplesMissingDerivative
        && Check(9) == CreditsMissingWork && Check(10) == PerformancesMissingArtist
        && Check(11) == PerformancesMissingWork && Check(12) == PerformancesMissingRecording
        && Check(13) == ClaimsMissingSubject && Check(14) == ClaimsMissingObject
        && Check(15) == ClaimEvidenceMissingClaim;
  }

  lemma IntactMeansNoneLoose(db: Database)
    ensures Intact(db) <==> forall kind: Kind :: Loose(kind, db) == {}
  {
    ClosedIsIntact(db);
    forall kind, r | r in db
      ensures IsOrphan(kind, db, r) <==> r in Loose(kind, db)
    {
      OrphanExactly(kind, db, r);
    }
  }

  /** Later targets of one rule never come before earlier ones: by identifier, or by the two columns. */
  lemma TargetsAscend(list: seq<Key>, i: nat, j: nat)
    requires Sorted(list) && i < j < |list| && list[i] != list[j]
    ensures match (list[i], list[j])
            case (IdKey(_, x), IdKey(_, y)) => Less(x, y)
            case (TagKey(p, x), TagKey(q, y)) => Less(p, q) || (p == q && Less(x, y))
            case (EvidenceKey(p, m), EvidenceKey(q, n)) => Less(p, q) || (p == q && m < n)
            case _ => false
  {
    assert InOrder(list[i], list[j]);
  }

  /** The accounts of an applied repair: every row is kept, or is a listed target, or went by cascade,
      and the audit log grew by exactly the number of targets. */
  lemma RepairAccounts(db: Database, audit: set<EventID>, log: set<EventID>, targets: seq<seq<Key>>, now: string)
    requires ListsAll(targets, TargetSets(db, RULE_COUNT)) && Logged(audit, log, targets, now)
    ensures |log| == |audit| + Total(targets)
    ensures |db| == |Repaired(db)| + Total(targets) + |Cascaded(db)|
  {
    TotalIsTotalSize(targets, TargetSets(db, RULE_COUNT));
    RowsAreAccountedFor(db);
  }
}
