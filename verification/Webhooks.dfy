/** The webhook circuit breaker: `RecordWebhookFailure` and `RecordWebhookSuccess` update one row
    atomically while any number of `deliver` loops interleave. */
module Webhooks {

  const MAX_FAILURES := 5
  const MAX_DELIVERY_ATTEMPTS := 5

  /** One recorded delivery result; a formatted time is never empty. */
  datatype Outcome = Success(at: string) | Failure(at: string)

  /** The columns of a row that deliveries read or change. Enabled means `disabledAt` is empty. */
  datatype Subscription = Subscription(eventKinds: set<string>, disabledAt: string, lastSuccessAt: string,
                                       failureCount: nat)

  function Created(eventKinds: set<string>): Subscription {
    Subscription(eventKinds, "", "", 0)
  }

  function Recorded(row: Subscription, outcome: Outcome): Subscription {
    match outcome
    case Success(at) => row.(lastSuccessAt := at, failureCount := 0)
    case Failure(at) =>
      row.(failureCount := row.failureCount + 1,
           disabledAt := if row.failureCount + 1 >= MAX_FAILURES && row.disabledAt == "" then at else row.disabledAt)
  }

  function Replay(eventKinds: set<string>, history: seq<Outcome>): Subscription {
    if history == [] then Created(eventKinds)
    else Recorded(Replay(eventKinds, history[..|history| - 1]), history[|history| - 1])
  }

  predicate Timed(history: seq<Outcome>) {
    forall o <- history :: o.at != ""
  }

  // ---------------------------------------------------------------- what the columns mean

  /** The last `n` outcomes are failures, and no longer run of failures ends the history. */
  ghost predicate TrailingFailures(history: seq<Outcome>, n: nat) {
    && n <= |history|
    && (forall i | |history| - n <= i < |history| :: history[i].Failure?)
    && (n < |history| ==> history[|history| - n - 1].Success?)
  }

  /** The outcome at `j` completes five failures in a row. */
  ghost predicate FifthFailureAt(history: seq<Outcome>, j: int) {
    4 <= j < |history| && forall i | j - 5 < i <= j :: history[i].Failure?
  }

  ghost predicate FirstFifthFailureAt(history: seq<Outcome>, j: int) {
    FifthFailureAt(history, j) && forall i | i < j :: !FifthFailureAt(history, i)
  }

  lemma {:induction false} CounterIsTrailingRun(eventKinds: set<string>, history: seq<Outcome>)
    ensures TrailingFailures(history, Replay(eventKinds, history).failureCount)
    decreases |history|
  {
    if history != [] {
      CounterIsTrailingRun(eventKinds, history[..|history| - 1]);
    }
  }

  lemma FifthFailureOfPrefix(history: seq<Outcome>, j: int)
    requires history != [] && j < |history| - 1
    ensures FifthFailureAt(history, j) <==> FifthFailureAt(history[..|history| - 1], j)
  {
    var before := history[..|history| - 1];
    if 4 <= j {
      assert forall i | j - 5 < i <= j :: before[i] == history[i];
    }
  }

  /** The last outcome completes five exactly when it is a failure after four or more. */
  lemma FifthFailureAtEnd(history: seq<Outcome>, count: nat)
    requires history != [] && TrailingFailures(history[..|history| - 1], count)
    ensures FifthFailureAt(history, |history| - 1) <==> history[|history| - 1].Failure? && count + 1 >= MAX_FAILURES
  {
    var before, last := history[..|history| - 1], |history| - 1;
    assert forall i | 0 <= i < last :: before[i] == history[i];
    if count + 1 < MAX_FAILURES && 4 <= last {
      assert before[last - count - 1].Success?;
    }
  }

  lemma FirstFifthFailureStep(history: seq<Outcome>, count: nat)
    requires history != [] && TrailingFailures(history[..|history| - 1], count)
    ensures var before, last := history[..|history| - 1], |history| - 1;
            var tips := history[last].Failure? && count + 1 >= MAX_FAILURES;
            && (forall j | j < last :: FirstFifthFailureAt(history, j) <==> FirstFifthFailureAt(before, j))
            && (FirstFifthFailureAt(history, last) <==> tips && forall j :: !FirstFifthFailureAt(before, j))
  {
    var before, last := history[..|history| - 1], |history| - 1;
    FifthFailureAtEnd(history, count);
    forall j | j < last
      ensures FifthFailureAt(history, j) <==> FifthFailureAt(before, j)
    {
      FifthFailureOfPrefix(history, j);
    }
    if forall j :: !FirstFifthFailureAt(before, j) {
      NoFirstNoFifth(before);
    }
  }

  /** A subscription is disabled exactly when its history has ever held five failures in a row, and
      `disabled_at` is the time of the first outcome that completed five. */
  lemma {:induction false} DisabledMeaning(eventKinds: set<string>, history: seq<Outcome>)
    requires Timed(history)
    ensures Replay(eventKinds, history).disabledAt != "" <==> exists j :: FirstFifthFailureAt(history, j)
    ensures forall j | FirstFifthFailureAt(history, j) :: Replay(eventKinds, history).disabledAt == history[j].at
    decreases |history|
  {
    if history != [] {
      var before := history[..|history| - 1];
      DisabledMeaning(eventKinds, before);
      CounterIsTrailingRun(eventKinds, before);
      FirstFifthFailureStep(history, Replay(eventKinds, before).failureCount);
      assert forall j | FirstFifthFailureAt(before, j) :: FirstFifthFailureAt(history, j);
    }
  }

  lemma NoFirstNoFifth(history: seq<Outcome>)
    requires forall j :: !FirstFifthFailureAt(history, j)
    ensures forall j :: !FifthFailureAt(history, j)
  {
    NoFifthBelow(history, |history|);
  }

  lemma {:induction false} NoFifthBelow(history: seq<Outcome>, n: nat)
    requires forall j :: !FirstFifthFailureAt(history, j)
    ensures forall j | j < n :: !FifthFailureAt(history, j)
    decreases n
  {
    if n > 0 {
      NoFifthBelow(history, n - 1);
      assert !FirstFifthFailureAt(history, n - 1);
    }
  }

  /** The latch: whatever is recorded later, the first disabling time stays. */
  lemma {:induction false} DisabledForever(eventKinds: set<string>, history: seq<Outcome>, later: seq<Outcome>)
    ensures var row := Replay(eventKinds, history);
            row.disabledAt != "" ==> Replay(eventKinds, history + later).disabledAt == row.disabledAt
    decreases |later|
  {
    if later == [] {
      assert history + later == history;
    } else {
      DisabledForever(eventKinds, history, later[..|later| - 1]);
      assert (history + later)[..|history + later| - 1] == history + later[..|later| - 1];
    }
  }

  /** Five or more outcomes in a row, all of them failures, leave the subscription disabled. */
  lemma FailuresDisable(eventKinds: set<string>, history: seq<Outcome>, failures: seq<Outcome>)
    requires Timed(history + failures)
    requires |failures| >= MAX_FAILURES && forall o <- failures :: o.Failure?
    ensures Replay(eventKinds, history + failures).disabledAt != ""
  {
    var all := history + failures;
    DisabledMeaning(eventKinds, all);
    NoFirstNoFifthUnless(all, |all| - 1, failures);
  }

  lemma NoFirstNoFifthUnless(history: seq<Outcome>, j: int, tail: seq<Outcome>)
    requires |tail| >= MAX_FAILURES && |history| >= |tail| && history[|history| - |tail|..] == tail
    requires j == |history| - 1 && forall o <- tail :: o.Failure?
    ensures exists k :: FirstFifthFailureAt(history, k)
  {
    forall i | j - 5 < i <= j
      ensures history[i].Failure?
    {
      assert history[i] == tail[i - (|history| - |tail|)];
    }
    assert FifthFailureAt(history, j);
    if forall k :: !FirstFifthFailureAt(history, k) {
      NoFirstNoFifth(history);
    }
  }

  // ---------------------------------------------------------------- deliveries

  /** One turn of a delivery loop: what other deliveries record on the row before this one records
      the result of its own post. */
  datatype Attempt = Attempt(others: seq<Outcome>, succeeds: bool, at: string)

  predicate ValidPlan(plan: seq<Attempt>) {
    |plan| == 5 && forall a <- plan :: a.at != "" && Timed(a.others)
  }

  function OwnOutcome(a: Attempt): Outcome {
    if a.succeeds then Success(a.at) else Failure(a.at)
  }

  /** Attempts made: up to and including the first success. */
  function AttemptsMade(plan: seq<Attempt>): (n: nat)
    ensures n <= |plan|
    ensures forall i | 0 <= i < n - 1 :: !plan[i].succeeds
    ensures n < |plan| ==> n > 0 && plan[n - 1].succeeds
  {
    if plan == [] then 0 else if plan[0].succeeds then 1 else 1 + AttemptsMade(plan[1..])
  }

  /** The stretch of the row's history that the first `n` turns of a delivery leave. */
  function Trace(plan: seq<Attempt>, n: nat): seq<Outcome>
    requires n <= |plan|
  {
    if n == 0 then [] else Trace(plan, n - 1) + plan[n - 1].others + [OwnOutcome(plan[n - 1])]
  }

  predicate Fails(plan: seq<Attempt>) {
    forall a <- plan :: !a.succeeds
  }

  /** Nobody records a success between the first and the last post. */
  predicate NoSuccessBetween(plan: seq<Attempt>) {
    forall i | 1 <= i < |plan| :: OnlyFailures(plan[i].others)
  }

  predicate OnlyFailures(outcomes: seq<Outcome>) {
    forall o <- outcomes :: o.Failure?
  }

  lemma {:induction false} TraceIsTimed(plan: seq<Attempt>, n: nat)
    requires n <= |plan| && ValidPlan(plan)
    ensures Timed(Trace(plan, n))
    decreases n
  {
    if n > 0 {
      TraceIsTimed(plan, n - 1);
      assert plan[n - 1] in plan;
    }
  }

  /** What others record before the first post comes first; behind it there are only failures. */
  lemma {:induction false} TraceOfFailure(plan: seq<Attempt>, n: nat) returns (tail: seq<Outcome>)
    requires 0 < n <= |plan| && Fails(plan) && NoSuccessBetween(plan)
    ensures Trace(plan, n) == plan[0].others + tail && |tail| >= n && OnlyFailures(tail)
    decreases n
  {
    assert plan[n - 1] in plan;
    var own := OwnOutcome(plan[n - 1]);
    if n == 1 {
      assert Trace(plan, 0) == [];
      tail := [own];
    } else {
      var before := TraceOfFailure(plan, n - 1);
      tail := before + plan[n - 1].others + [own];
      assert plan[0].others + tail == plan[0].others + before + plan[n - 1].others + [own];
    }
  }

  /** What was ever recorded on a row, with the event kinds it was created for. */
  datatype Log = Log(eventKinds: set<string>, history: seq<Outcome>)

  /** The table that belongs to the recorded histories. */
  function Rows(logs: map<string, Log>): map<string, Subscription> {
    map id | id in logs :: Replay(logs[id].eventKinds, logs[id].history)
  }

  function Extended(logs: map<string, Log>, id: string, more: seq<Outcome>): map<string, Log> {
    if id in logs then logs[id := logs[id].(history := logs[id].history + more)] else logs
  }

  lemma ExtendedTwice(logs: map<string, Log>, id: string, first: seq<Outcome>, second: seq<Outcome>)
    ensures Extended(logs, id, []) == logs
    ensures Extended(Extended(logs, id, first), id, second) == Extended(logs, id, first + second)
  {
    if id in logs {
      assert logs[id].history + [] == logs[id].history;
      assert (logs[id].history + first) + second == logs[id].history + (first + second);
    }
  }

  ghost predicate AllTimed(logs: map<string, Log>) {
    forall id <- logs :: Timed(logs[id].history)
  }

  lemma HistoryGrows(logs: map<string, Log>, id: string, outcome: Outcome)
    requires id in logs
    ensures Rows(Extended(logs, id, [outcome])) == Rows(logs)[id := Recorded(Rows(logs)[id], outcome)]
  {
    var longer := logs[id].history + [outcome];
    assert longer[..|longer| - 1] == logs[id].history;
  }

  class WebhookStore {
    var webhooks: map<string, Subscription>
    ghost var logs: map<string, Log>

    /** The table is the one its history determines. */
    ghost predicate Valid()
      reads this
    {
      webhooks == Rows(logs) && AllTimed(logs)
    }

    constructor ()
      ensures Valid() && webhooks == map[]
    {
      webhooks, logs := map[], map[];
    }

    method CreateWebhook(id: string, eventKinds: set<string>)
      requires Valid() && id !in webhooks
      modifies this
      ensures Valid() && logs == old(logs)[id := Log(eventKinds, [])]
      ensures webhooks == old(webhooks)[id := Created(eventKinds)]
    {
      webhooks, logs := webhooks[id := Created(eventKinds)], logs[id := Log(eventKinds, [])];
    }

    method DeleteWebhook(id: string) returns (deleted: bool)
      requires Valid()
      modifies this
      ensures Valid() && logs == old(logs) - {id}
      ensures deleted == (id in old(webhooks)) && webhooks == old(webhooks) - {id}
    {
      deleted := id in webhooks;
      webhooks, logs := webhooks - {id}, logs - {id};
    }

    /** The UPDATE statements touch no row when the identifier is unknown. */
    method RecordWebhookSuccess(id: string, at: string)
      requires Valid() && at != ""
      modifies this
      ensures Valid() && logs == Extended(old(logs), id, [Success(at)])
    {
      if id in webhooks {
        HistoryGrows(logs, id, Success(at));
        webhooks := webhooks[id := webhooks[id].(lastSuccessAt := at, failureCount := 0)];
        logs := Extended(logs, id, [Success(at)]);
      }
    }

    method RecordWebhookFailure(id: string, at: string)
      requires Valid() && at != ""
      modifies this
      ensures Valid() && logs == Extended(old(logs), id, [Failure(at)])
    {
      if id in webhooks {
        HistoryGrows(logs, id, Failure(at));
        var row := webhooks[id];
        if row.failureCount + 1 >= MAX_FAILURES && row.disabledAt == "" {
          row := row.(disabledAt := at);
        }
        webhooks := webhooks[id := row.(failureCount := row.failureCount + 1)];
        logs := Extended(logs, id, [Failure(at)]);
      }
    }

    method Record(id: string, outcome: Outcome)
      requires Valid() && outcome.at != ""
      modifies this
      ensures Valid() && logs == Extended(old(logs), id, [outcome])
    {
      match outcome {
        case Success(at) => RecordWebhookSuccess(id, at);
        case Failure(at) => RecordWebhookFailure(id, at);
      }
    }

    /** What other deliveries record between two steps of one delivery. */
    method Interfere(id: string, outcomes: seq<Outcome>)
      requires Valid() && Timed(outcomes)
      modifies this
      ensures Valid() && logs == Extended(old(logs), id, outcomes)
    {
      ExtendedTwice(logs, id, [], []);
      for i := 0 to |outcomes|
        invariant Valid() && logs == Extended(old(logs), id, outcomes[..i])
      {
        assert outcomes[..i + 1] == outcomes[..i] + [outcomes[i]];
        ExtendedTwice(old(logs), id, outcomes[..i], [outcomes[i]]);
        Record(id, outcomes[i]);
      }
      assert outcomes[..|outcomes|] == outcomes;
    }

    /** The attempt loop. When every post fails and nobody records a success between the first and the
        last, the subscription, unless it was deleted, ends up disabled. */
    method Deliver(id: string, plan: seq<Attempt>) returns (delivered: bool)
      requires Valid() && ValidPlan(plan)
      modifies this
      ensures Valid() && logs == Extended(old(logs), id, Trace(plan, AttemptsMade(plan)))
      ensures delivered <==> !Fails(plan)
      ensures id in webhooks && Fails(plan) && NoSuccessBetween(plan) ==> webhooks[id].disabledAt != ""
    {
      delivered := false;
      ExtendedTwice(logs, id, [], []);
      var attempt := 0;
      while attempt < MAX_DELIVERY_ATTEMPTS && !delivered
        invariant 0 <= attempt <= MAX_DELIVERY_ATTEMPTS
        invariant Valid() && logs == Extended(old(logs), id, Trace(plan, attempt))
        invariant forall i | 0 <= i < attempt - 1 :: !plan[i].succeeds
        invariant delivered <==> attempt > 0 && plan[attempt - 1].succeeds
        decreases MAX_DELIVERY_ATTEMPTS - attempt
      {
        var turn := plan[attempt];
        ExtendedTwice(old(logs), id, Trace(plan, attempt), turn.others);
        ExtendedTwice(old(logs), id, Trace(plan, attempt) + turn.others, [OwnOutcome(turn)]);
        Interfere(id, turn.others);
        delivered := turn.succeeds;
        Record(id, OwnOutcome(turn));
        attempt := attempt + 1;
      }
      LoopMadeAll(plan, attempt);
      if id in webhooks {
        DeliveryDisables(old(logs)[id], plan);
      }
    }

    /** The enabled subscriptions of an event kind. */
    method WebhooksForEvent(kind: string) returns (ids: set<string>)
      ensures forall id :: id in ids <==>
                id in webhooks && webhooks[id].disabledAt == "" && kind in webhooks[id].eventKinds
    {
      ids := set id | id in webhooks && webhooks[id].disabledAt == "" && kind in webhooks[id].eventKinds;
    }

    /** The loop over the listed subscriptions, which goes on past failed deliveries. */
    method DeliverAll(ids: set<string>, plans: map<string, seq<Attempt>>) returns (failed: set<string>)
      requires Valid() && ids <= plans.Keys && forall id <- ids :: ValidPlan(plans[id])
      modifies this
      ensures Valid() && logs == Dispatched(old(logs), ids, plans)
      ensures failed <= ids && forall id <- ids :: id in failed <==> Fails(plans[id])
    {
      var done: set<string> := {};
      failed := {};
      assert Dispatched(logs, {}, plans) == logs;
      while ids - done != {}
        invariant failed <= done <= ids
        invariant Valid() && logs == Dispatched(old(logs), done, plans)
        invariant forall id <- done :: id in failed <==> Fails(plans[id])
        decreases ids - done
      {
        var id :| id in ids - done;
        DispatchedOneMore(old(logs), done, plans, id);
        var delivered := Deliver(id, plans[id]);
        done := done + {id};
        if !delivered {
          failed := failed + {id};
        }
      }
      assert done == ids;
    }

    /** One event goes to every subscription that was enabled for it when the list was read: its history
        grows by the trace of one delivery, and it is reported when that failed. Every other row keeps
        its history and is not reported. */
    method Dispatch(kind: string, plans: map<string, seq<Attempt>>) returns (failed: set<string>)
      requires Valid() && forall id <- webhooks :: id in plans && ValidPlan(plans[id])
      modifies this
      ensures Valid() && logs.Keys == old(logs).Keys
      ensures forall id <- old(webhooks)
                | old(webhooks)[id].disabledAt == "" && kind in old(webhooks)[id].eventKinds ::
                && logs[id] == Log(old(logs)[id].eventKinds,
                                   old(logs)[id].history + Trace(plans[id], AttemptsMade(plans[id])))
                && (id in failed <==> Fails(plans[id]))
      ensures forall id <- old(webhooks)
                | old(webhooks)[id].disabledAt != "" || kind !in old(webhooks)[id].eventKinds ::
                logs[id] == old(logs)[id] && webhooks[id] == old(webhooks)[id] && id !in failed
      ensures failed <= old(webhooks).Keys
      ensures IsDispatch(old(logs), logs, kind)
    {
      var ids := WebhooksForEvent(kind);
      failed := DeliverAll(ids, plans);
    }
  }

  /** The histories after one delivery to each of `ids`. */
  ghost function Dispatched(logs: map<string, Log>, ids: set<string>, plans: map<string, seq<Attempt>>)
    : map<string, Log>
    requires ids <= plans.Keys
  {
    map id | id in logs :: if id in ids then
        logs[id].(history := logs[id].history + Trace(plans[id], AttemptsMade(plans[id]))) else logs[id]
  }

  lemma DispatchedOneMore(logs: map<string, Log>, ids: set<string>, plans: map<string, seq<Attempt>>, id: string)
    requires ids + {id} <= plans.Keys && id !in ids
    ensures Extended(Dispatched(logs, ids, plans), id, Trace(plans[id], AttemptsMade(plans[id])))
         == Dispatched(logs, ids + {id}, plans)
  {
  }

  lemma {:induction false} LoopMade(plan: seq<Attempt>, n: nat)
    requires n <= |plan| && forall i | 0 <= i < n - 1 :: !plan[i].succeeds
    requires n == |plan| || (n > 0 && plan[n - 1].succeeds)
    ensures n == AttemptsMade(plan)
    decreases |plan|
  {
    if plan != [] && !plan[0].succeeds {
      LoopMade(plan[1..], n - 1);
    }
  }

  lemma LoopMadeAll(plan: seq<Attempt>, n: nat)
    requires plan != [] && n <= |plan| && forall i | 0 <= i < n - 1 :: !plan[i].succeeds
    requires n == |plan| || (n > 0 && plan[n - 1].succeeds)
    ensures n == AttemptsMade(plan) && (plan[n - 1].succeeds <==> !Fails(plan))
  {
    LoopMade(plan, n);
    if plan[n - 1].succeeds {
      assert plan[n - 1] in plan;
    }
  }

  lemma {:induction false} FailedPlanIsUsedUp(plan: seq<Attempt>)
    requires Fails(plan)
    ensures AttemptsMade(plan) == |plan|
    decreases |plan|
  {
    if plan != [] {
      FailedPlanIsUsedUp(plan[1..]);
    }
  }

  /** Five failed posts with no success recorded between the first and the last of them disable the row,
      whatever was recorded before the first, and nothing recorded afterwards enables it again. */
  lemma DeliveryDisables(log: Log, plan: seq<Attempt>)
    requires ValidPlan(plan) && Timed(log.history)
    ensures Fails(plan) && NoSuccessBetween(plan) ==>
              forall later ::
                Replay(log.eventKinds, log.history + Trace(plan, AttemptsMade(plan)) + later).disabledAt != ""
    ensures Fails(plan) && NoSuccessBetween(plan) ==>
              Replay(log.eventKinds, log.history + Trace(plan, AttemptsMade(plan))).disabledAt != ""
  {
    if Fails(plan) && NoSuccessBetween(plan) {
      var all := log.history + Trace(plan, AttemptsMade(plan));
      FailedPlanIsUsedUp(plan);
      TraceIsTimed(plan, |plan|);
      var tail := TraceOfFailure(plan, |plan|);
      assert all == (log.history + plan[0].others) + tail;
      FailuresDisable(log.eventKinds, log.history + plan[0].others, tail);
      forall later
        ensures Replay(log.eventKinds, all + later).disabledAt != ""
      {
        DisabledForever(log.eventKinds, all, later);
      }
    }
  }

  // ---------------------------------------------------------------- what a disabled row is spared

  /** One dispatch as the histories show it: only rows that are enabled for the kind gain outcomes. */
  ghost predicate IsDispatch(before: map<string, Log>, after: map<string, Log>, kind: string) {
    && after.Keys == before.Keys
    && forall id <- before ::
         var row := Replay(before[id].eventKinds, before[id].history);
         && before[id].eventKinds == after[id].eventKinds
         && (row.disabledAt != "" || kind !in row.eventKinds ==> after[id].history == before[id].history)
  }

  /** Any number of dispatches one after the other. */
  ghost predicate AreDispatches(states: seq<map<string, Log>>, kinds: seq<string>) {
    && |states| == |kinds| + 1
    && forall i | 0 <= i < |kinds| :: IsDispatch(states[i], states[i + 1], kinds[i])
  }

  /** No later dispatch touches a disabled row. */
  lemma {:induction false} DisabledIsLeftAlone(states: seq<map<string, Log>>, kinds: seq<string>, id: string, n: nat)
    requires AreDispatches(states, kinds) && n <= |kinds| && id in states[0]
    requires Replay(states[0][id].eventKinds, states[0][id].history).disabledAt != ""
    ensures id in states[n] && states[n][id] == states[0][id]
    decreases n
  {
    if n > 0 {
      DisabledIsLeftAlone(states, kinds, id, n - 1);
      assert IsDispatch(states[n - 1], states[n - 1 + 1], kinds[n - 1]);
    }
  }

  /** After five failed posts with no success recorded between the first and the last, and whatever
      else was recorded behind them, no dispatch posts to the subscription again. */
  lemma FailedDeliveryIsTheLast(log: Log, plan: seq<Attempt>, more: seq<Outcome>, states: seq<map<string, Log>>,
                                kinds: seq<string>, id: string)
    requires ValidPlan(plan) && Timed(log.history) && Fails(plan) && NoSuccessBetween(plan)
    requires AreDispatches(states, kinds) && id in states[0]
    requires states[0][id] == Log(log.eventKinds, log.history + Trace(plan, AttemptsMade(plan)) + more)
    ensures forall n | 0 <= n <= |kinds| :: id in states[n] && states[n][id] == states[0][id]
  {
    DeliveryDisables(log, plan);
    forall n | 0 <= n <= |kinds|
      ensures id in states[n] && states[n][id] == states[0][id]
    {
      DisabledIsLeftAlone(states, kinds, id, n);
    }
  }

  // ---------------------------------------------------------------- the other columns

  ghost predicate IsLastSuccess(history: seq<Outcome>, j: int) {
    0 <= j < |history| && history[j].Success? && forall k | j < k < |history| :: history[k].Failure?
  }

  lemma {:induction false} KindsAreKept(eventKinds: set<string>, history: seq<Outcome>)
    ensures Replay(eventKinds, history).eventKinds == eventKinds
    decreases |history|
  {
    if history != [] {
      KindsAreKept(eventKinds, history[..|history| - 1]);
    }
  }

  lemma {:induction false} NoSuccessNoTime(eventKinds: set<string>, history: seq<Outcome>)
    requires forall i | 0 <= i < |history| :: history[i].Failure?
    ensures Replay(eventKinds, history).lastSuccessAt == ""
    decreases |history|
  {
    if history != [] {
      NoSuccessNoTime(eventKinds, history[..|history| - 1]);
    }
  }

  lemma {:induction false} TimeOfLastSuccess(eventKinds: set<string>, history: seq<Outcome>, j: int)
    requires IsLastSuccess(history, j)
    ensures Replay(eventKinds, history).lastSuccessAt == history[j].at
    decreases |history|
  {
    if j < |history| - 1 {
      TimeOfLastSuccess(eventKinds, history[..|history| - 1], j);
    }
  }

  /** `last_success_at` is the time of the last success, or empty when there was none; the kinds are those
      the subscription was created for. */
  lemma LastSuccessMeaning(eventKinds: set<string>, history: seq<Outcome>)
    ensures Replay(eventKinds, history).eventKinds == eventKinds
    ensures OnlyFailures(history) ==> Replay(eventKinds, history).lastSuccessAt == ""
    ensures forall j | IsLastSuccess(history, j) :: Replay(eventKinds, history).lastSuccessAt == history[j].at
  {
    KindsAreKept(eventKinds, history);
    if OnlyFailures(history) {
      NoSuccessNoTime(eventKinds, history);
    }
    forall j | IsLastSuccess(history, j)
      ensures Replay(eventKinds, history).lastSuccessAt == history[j].at
    {
      TimeOfLastSuccess(eventKinds, history, j);
    }
  }
}
