# Verified model of the Tanabata catalog

Tanabata keeps quotes, claims, sample edges and webhook subscriptions in one SQLite database. This project
models the parts of it that carry algorithms and state-machine guarantees, and proves what they promise.
`dafny verify dfyconfig.toml` checks all of it. Tables are sets or maps, every SQL statement and every
transaction is one atomic step (the store opens a single connection, with foreign keys on), strings are
sequences of runes, confidence scores are exact reals, and hashes stand for the strings they hash.

| file | what it holds |
|---|---|
| `OrphanRepair.dfy`, `Catalog.dfy` | the sixteen integrity checks and repair rules over rows with cascading deletes |
| `Quotes.dfy`, `QuoteStore.dfy`, `QuoteWriters.dfy` | the quote upsert: one call, sequential runs, concurrent writers |
| `Claims.dfy`, `ClaimWriters.dfy` | claim recording and its events: sequential runs, concurrent writers |
| `Ratchet.dfy` | rank and confidence as a lattice, shared by the two writer protocols |
| `Samples.dfy` | the sample graph and its cycle guard |
| `EntityGraph.dfy`, `GraphPages.dfy` | the walk over claim edges and the edge cursor |
| `NormalForms.dfy`, `EditDistance.dfy`, `MergeScore.dfy` | text matching |
| `Webhooks.dfy` | the delivery loop and the circuit breaker |
| `FtsQuery.dfy` | the full-text query printer and its inverse |
| `Text.dfy` | the Go string functions used by the rest |

Four statements of the documentation turn out not to hold of the code; the model follows the code, and each has
a failing input and the exact condition under which it does hold.

- `docs/adr/005-unified-claim-model.md` calls the stored sample graph a DAG. The guard looks back
  eight steps, so a cycle of ten edges can be stored (`Samples.TenRecordingsCanCycle`); what is excluded is
  every closed walk of length nine or less, and `Samples.RecordKeepsAcyclicExactly` says when an insertion
  is safe.
- `docs/quality-model.md` and `docs/adr/004-quote-merge-heuristics.md` say that source-backed records win
  over source-less ones. The merge compares provenance rank and confidence only
  (`QuoteStore.SourcelessReplacesSourced`); `QuoteStore.SourceBackedWinsExactly` says when they do win.
- The same documents say that higher confidence breaks ties of provenance. The confidence is cut to whole
  percentage points, and a draw goes to the incoming record (`QuoteStore.LessConfidentReplacesMoreConfident`);
  `QuoteStore.MoreConfidentWinsExactly` says when the more confident record wins.
- Distinct normal forms per artist (ADR 004: one quote, not several punctuation variants) hold exactly when
  the catalog has no artist whose identifier is blank but not empty beside one whose identifier is empty
  (`QuoteStore.NormalTextsUniqueExactly`).

The `claim.state_changed` and `dispute.raised` events announce the real change in every sequential run but not
always under concurrency; `ClaimWriters.EventsAreTrueExactly` says which writes of which interleavings do.

## Model

| member | source | states |
|---|---|---|
| OrphanRepair.RepairedIsGreatestIntact | api/internal/catalog/store.go:2176-2201 | one pass of the rules yields the greatest part of any keyed catalog in which every reference column of every row leads to a row: the result is such a part, and every such part of the original is contained in it |
| OrphanRepair.OrphanExactly | api/internal/catalog/store.go:2224-2260 | each of the sixteen checks counts exactly the rows whose column names no row of the table it stands for, claim ends of unknown type included |
| OrphanRepair.ClosedIsIntact | api/internal/catalog/store.go:2241-2260 | all sixteen counts are zero if and only if every reference leads somewhere |
| OrphanRepair.RepairedIsClosed | api/internal/catalog/store.go:2262-2343 | after a single pass in the listed order none of the sixteen kinds of orphan is left |
| OrphanRepair.RuleKeepsEarlierChecks | api/internal/catalog/store.go:2262-2343 | no rule creates work for a rule before it, either because the reference cascades or because the order checks it later |
| OrphanRepair.OrderRespectsReferences | api/internal/catalog/store.go:2262-2343 | a reference without a cascade is checked only after every rule that can delete from its target table |
| OrphanRepair.CascadeTakesChildren | api/internal/catalog/migrations.go:90-102 | a child of a row that a delete removes, directly or by cascade, is removed too |
| OrphanRepair.CascadeSparesClosed | api/internal/catalog/migrations.go:378-381 | a cascade never reaches a row of a reference-closed set that the delete itself does not name |
| OrphanRepair.ChildExactly | api/internal/catalog/migrations.go:258-325 | which rows a deleted row takes with it, column by column |
| OrphanRepair.KeyExactly | api/internal/catalog/migrations.go:76-102 | two rows have one key exactly when they are of one table and agree in its primary key columns |
| OrphanRepair.SecondPassDeletesNothing | api/internal/catalog/store.go:2154-2206 | a catalog is left alone exactly when it is intact, so repairing twice is repairing once |
| OrphanRepair.DryRunTargetsAreGone | api/internal/catalog/store.go:2160-2170 | every row a dry run would list is gone after the applied pass |
| OrphanRepair.RowsAreAccountedFor | api/internal/catalog/store.go:2176-2201 | every row is kept, or listed by exactly one rule, or went because a parent of it went; the counts add up |
| Catalog.RepairAccounts | api/internal/catalog/store.go:56-62 | the audit log grew by `Total()`, and the rows removed are `Total()` plus the cascaded ones |
| Catalog.RunRules | api/internal/catalog/store.go:2176-2201 | the transaction of sixteen rules reaches the repaired database, lists each rule's targets in the order of their keys and logs one event for each; a failure means an audit identifier of the same second existed |
| Catalog.Store.RepairOrphans | api/internal/catalog/store.go:2154-2206 | a dry run changes nothing and lists the rows each check counts in the order of their keys; an applied run stores the repaired rows, which are intact, and the events; a clash rolls everything back |
| Catalog.Store.IntegrityReport | api/internal/catalog/store.go:2125-2152 | reports the number of dangling rows of each kind, the sorted names of the checks that failed, and success exactly when SQLite answers `ok` and every reference leads somewhere |
| Catalog.TargetsAscend | api/internal/catalog/store.go:2262-2343 | the targets of a rule ascend by identifier, or by quote and tag or position |
| Quotes.PriorityIsLexicographic | api/internal/catalog/store.go:3621-3638 | `rank*1000 + floor(100c)` compares ranks first for all confidences in [0, 1] |
| Quotes.LadderExactly | api/internal/catalog/store.go:3625-3638 | the order of the five stored statuses, in the Go rank and in the SQL guard, and where the two rankings differ |
| Quotes.MergeColumns | api/internal/catalog/store.go:3586-3619 | what a merge takes from which record, column by column: the text that is longer in UTF-8, the stored one in a draw, the winner's status, origin and source, and the other's where the winner has none |
| Quotes.ByteLengthAdds | api/internal/catalog/store.go:3732-3740 | the length that decides between texts is additive |
| Quotes.ByteLengthOfRune | api/internal/catalog/store.go:3732-3740 | every rune counts the fewest UTF-8 bytes it fits in |
| Quotes.CandidateExactly | api/internal/catalog/store.go:1062-1072 | a given identifier is kept; otherwise two requests of artists without a bar in their identifier get one exactly when artist, normal form and source address agree |
| Quotes.UpsertKeepsValid | api/internal/catalog/store.go:941-1015 | an upsert with any best match keeps the normal forms of each artist distinct, each row's own normal form stored, and only allowed statuses |
| QuoteStore.NormalTextsUniqueExactly | api/internal/catalog/store.go:941-1107 | in every state of every sequential run from the empty catalog no two quotes of an artist share a normal form, if and only if the artists hold no blank twins |
| QuoteStore.GuardAgreesWithMerge | api/internal/catalog/store.go:988-1015 | the SQL guard never overrides the status and confidence of a merge computed from the current row |
| QuoteStore.NearDuplicateUpsert | api/internal/catalog/store.go:941-1044 | an upsert that finds a near-duplicate keeps the longer text, the best rank and confidence, exactly the union of tags and of evidence, logs the swallowed identifier with its score once, and changes no other row |
| QuoteStore.NearDuplicateColumns | api/internal/catalog/store.go:941-1015 | status, source identifier and origin of the stored row are the winner's, else the loser's, else those of the source; the artist is the request's |
| QuoteStore.StrongerStatusIsStored | api/internal/catalog/store.go:3597-3602 | of any two stored statuses the stronger one survives a merge, whichever comes first |
| QuoteStore.MatchedResult | api/internal/catalog/store.go:941-1015 | a matched request is refused exactly when the winner has a status that is not stored or the artist is not known |
| QuoteStore.UnmatchedUpsert | api/internal/catalog/store.go:961-1044 | an unmatched request is refused for its status or its artist, else its row holds exactly the request, and a row that had the identifier keeps the stronger status and the higher confidence |
| QuoteStore.InsertedReadsBack | api/internal/catalog/store.go:1345-1377 | an inserted row reads back as the request, trimmed and deduplicated, with the source its identifier names |
| QuoteStore.Store.ExistingQuote | api/internal/catalog/store.go:1074-1107 | returns a row of the artist with the highest merge score, or none exactly when no text of the artist counts as the same: equal words, equal letters, the text occurring in it, or enough shared words |
| QuoteStore.Store.UpsertQuote | api/internal/catalog/store.go:941-1060 | performs the upsert for some best match and keeps the invariant |
| QuoteStore.SourceBackedWinsExactly | api/internal/catalog/store.go:3586-3638 | of a source-backed and a source-less record the row takes the origin of the source-backed one if and only if that has the higher rank, or the same rank and more whole points of confidence, or draws and comes second |
| QuoteStore.SourcelessReplacesSourced | api/internal/catalog/store.go:3598-3604 | two upserts of equal rank and confidence after which a source-less provider has replaced the origin of a source-backed one |
| QuoteStore.MoreConfidentWinsExactly | api/internal/catalog/store.go:3621-3623 | between equal ranks the row takes the origin of the more confident record if and only if that comes second or leads by a whole percentage point |
| QuoteStore.LessConfidentReplacesMoreConfident | api/internal/catalog/store.go:3621-3623 | two upserts of equal rank after which the provider with confidence 0.901 has replaced the one with 0.909 |
| Quotes.DedupeStrings | api/internal/catalog/store.go:3810-3826 | returns the trimmed values that are not blank, each once, in ascending order |
| QuoteWriters.StrongestSubmissionSurvives | api/internal/catalog/store.go:988-1015 | for any number of writers in any interleaving the row's rank and confidence are the maxima over the committed submissions and never decrease |
| QuoteWriters.OriginBelongsToStatus | api/internal/catalog/store.go:3586-3619 | when every submission names its provider, the stored status and origin are those of one committed submission of the row's rank |
| QuoteWriters.LoneWriterUpserts | api/internal/catalog/store.go:941-1015 | a writer that is not interrupted does what the sequential upsert does and is then done |
| Claims.RecordExactly | api/internal/catalog/store_claims.go:30-99 | for every request the answer and the stored row: the first missing part, or the refusals of the table, and nothing changes; else a new claim holds the request, a blank status counting as waiting for review, and a stored one keeps what it is about, the higher rank and confidence, and the origin of the stronger side |
| Claims.LadderExactly | api/internal/catalog/store_claims.go:422-439 | the statuses of each rank, and that exactly these are stored |
| Claims.ClaimIDExactly | api/internal/catalog/store_claims.go:49-52 | a given identifier is trimmed; otherwise two requests without bars in their parts get one identifier exactly when they are about the same |
| Claims.AnnouncedExactly | api/internal/catalog/store_claims.go:102-119 | which events a change of status emits, with the three disputed statuses |
| Claims.EventsAreTrue | api/internal/catalog/store_claims.go:53-119 | a call made alone stores the status it merged, emits a change event exactly when the stored status changes, names both statuses, and only ever raises the rank |
| Claims.AnnouncementsOfAnyRun | api/internal/catalog/store_claims.go:65-119 | over any sequential run the change events of a claim chain from nothing and replay to the stored status with strictly rising rank; at most six of them, and at most two disputes |
| Claims.EveryRisingPathIsARun | api/internal/catalog/store_claims.go:102-119 | every path of allowed statuses with rising rank is the announced history of some run |
| Claims.BoundsAreReached | api/internal/catalog/store_webhooks.go:170-177 | some run does emit six changes and two disputes |
| Claims.StoredIDsAreTidy | api/internal/catalog/store_claims.go:49-52 | no run stores a blank or padded claim identifier |
| Claims.ClaimStore.RecordClaim | api/internal/catalog/store_claims.go:30-121 | the method has exactly the modelled effect on the claims and the emitted events, error cases included |
| ClaimWriters.StrongestClaimSurvives | api/internal/catalog/store_claims.go:53-99 | with the Go merge and the SQL write as separate steps, any interleaving keeps status rank and confidence monotone and equal to the maxima over committed claims |
| ClaimWriters.OriginHasStoredRank | api/internal/catalog/store_claims.go:69-94 | when every claim names its provider, the stored origin is that of a committed claim of the stored rank |
| ClaimWriters.LoneWriterRecords | api/internal/catalog/store_claims.go:53-119 | a writer that is not interrupted stores and announces what a call does and is then done |
| ClaimWriters.EventsAreTrueExactly | api/internal/catalog/store_claims.go:53-119 | in every state of every interleaving a write emits the events of the change it really makes if and only if the row still has the status its writer found, or the writer kept the status it found and the guard keeps the row |
| ClaimWriters.EventsMatchExactly | api/internal/catalog/store_claims.go:59-119 | for any row that was read and any row that is met at the write, the condition under which the announced events are those of the real change |
| ClaimWriters.StaleWriterAnnouncesUnstoredStatus | api/internal/catalog/store_claims.go:59-119 | an interleaving in which the condition fails and a writer announces, last of all, a status the row does not have |
| Samples.WouldCycleExactly | api/internal/catalog/store_samples.go:81-102 | the recursive query answers exactly whether a walk of length at most 8 leads back from the derivative to the source |
| Samples.AcceptedEdgeKeepsGirth | api/internal/catalog/store_samples.go:27-44 | an accepted edge creates no closed walk of length 9 or less, even one that uses it several times |
| Samples.ReachableGirth | api/internal/catalog/store_samples.go:20-44 | no graph reached from the empty table by recordings and deletions has a closed walk of length 9 or less |
| Samples.StoredEdgeIsAccepted | api/internal/catalog/store_samples.go:35-44 | recording a stored edge again is never rejected |
| Samples.NineEdgesAreAcyclic | api/internal/catalog/store_samples.go:27-34 | whatever was recorded, rejected and deleted, a stored graph of at most nine edges is acyclic, so in particular after at most nine recordings |
| Samples.RecordKeepsAcyclicExactly | api/internal/catalog/store_samples.go:27-34 | recording into an acyclic graph keeps it acyclic if and only if the query rejects the edge or the source is not reachable from the derivative at any depth |
| Samples.TenRecordingsCanCycle | api/internal/catalog/store_samples.go:87-96 | ten recordings can store a cycle, because the walk stops at depth 8 |
| Samples.SampleStore.RecordSampleEdge | api/internal/catalog/store_samples.go:20-54 | refuses blank identifiers, cycles and unknown recordings, each exactly when it should, in this order and without a change, else upserts the row, empty notes keeping the stored ones; keeps the invariant |
| Samples.SampleKindExactly | api/internal/catalog/store_samples.go:224-234 | a blank kind becomes the default, case and padding do not matter, and a tidy kind is kept |
| EntityGraph.Walk | api/internal/catalog/store_claims.go:254-261 | the recursion with UNION terminates and returns exactly the nodes at the ends of walks from the entity, with their lengths up to the depth |
| EntityGraph.GraphClaimEdges | api/internal/catalog/store_claims.go:241-267 | returns, in claim identifier order, exactly the edges with an endpoint at undirected distance less than the depth |
| EntityGraph.SelectedMonotone | api/internal/catalog/store_claims.go:241-267 | the selected claims grow with the claims, the kinds and the depth |
| EntityGraph.KindsMonotoneExactly | api/internal/catalog/store_claims.go:135-137 | more requested kinds give every catalog a larger answer if and only if the shorter list is not empty, or the longer one is empty too or names all five |
| EntityGraph.EntityGraph | api/internal/catalog/store_claims.go:123-146 | the answer to a request is a page of the listing, in claim identifier order, of exactly the requested claims with an end fewer than `depth` steps from the entity, a depth below 1 counting as 1 and above 3 as 3, each shown with its own ends |
| EntityGraph.AnswerExactly | api/internal/catalog/store_claims.go:241-267 | the selected claims at each depth, in terms of trails over claims in either direction, with a work credit standing for the artist it names |
| EntityGraph.FollowingReturnsEachOnce | api/internal/catalog/store_claims.go:123-146 | following the trimmed cursor over successive requests to its end, whatever happens to the claims in between, returns in order and at most once only edges that some request selected, and every edge that each request selected |
| EntityGraph.InsertionsLoseNothing | api/internal/catalog/store_claims.go:123-146 | with claims inserted between the requests every edge selected at the first request is returned exactly once, and nothing that is not selected at the last |
| EntityGraph.InsertionsKeepCursor | api/internal/catalog/store_claims.go:143-146 | with claims inserted between the requests no handed out cursor is refused |
| GraphPages.PaginateGraphEdgeRows | api/internal/catalog/store_claims.go:269-292 | returns the hundred edges behind the cursor with the next cursor, or refuses an unknown cursor |
| GraphPages.PageMembers | api/internal/catalog/store_claims.go:269-292 | a page holds exactly the listed claims behind its cursor up to the one it hands out |
| GraphPages.PageLength | api/internal/catalog/store_claims.go:284-291 | a page holds at most a hundred edges, exactly a hundred when it hands out a cursor, and ends with the listing when it does not |
| GraphPages.EveryEdgeExactlyOnce | api/internal/catalog/store_claims.go:269-292 | following the cursor to its end through listings that change between the requests returns ascending identifiers, none twice, only listed ones, and all that were listed every time |
| GraphPages.CursorStaysKnown | api/internal/catalog/store_claims.go:271-283 | a handed out cursor is refused exactly when its edge is gone |
| GraphPages.ReadAllIsWhole | api/internal/catalog/store_claims.go:284-291 | reading an unchanged listing stops and returns it whole, with one request for every hundred edges or part of a hundred |
| EditDistance.Levenshtein | api/internal/search/search.go:114-149 | the one-row loop with its early exits returns the recursive minimum edit distance |
| EditDistance.DistanceIsShortestScript | api/internal/search/search.go:114-149 | that distance is the least number of single-rune insertions, deletions and substitutions that turn one string into the other |
| EditDistance.DistanceTriangle | api/internal/search/search.go:125-149 | the distance satisfies the triangle inequality |
| EditDistance.DistanceZeroIffEqual | api/internal/search/search.go:115-117 | the distance is zero exactly on equal strings |
| EditDistance.DistanceSymmetric | api/internal/search/search.go:125-149 | the distance is symmetric |
| EditDistance.DistanceBounds | api/internal/search/search.go:118-123 | the distance lies between the difference and the maximum of the lengths |
| MergeScore.TokenOverlap | api/internal/search/search.go:161-181 | the decrementing count loop computes the size of the multiset intersection over the larger length |
| MergeScore.OverlapMeaning | api/internal/search/search.go:161-181 | the overlap is symmetric, lies in [0, 1], and is 1 exactly on equal non-empty multisets |
| MergeScore.MergeScoreExactly | api/internal/search/search.go:64-112 | every score: 100, 98, 95, 90, 80, 75, 60, 45 or 0, by equal words, equal letters, shared words, containment either way and edit distance |
| MergeScore.MergesExactly | api/internal/search/search.go:85-87 | which texts count as one quote: equal words, equal letters, the first occurring in the second, 95 percent of shared words, or 85 percent with lengths at most one apart |
| MergeScore.MergeScoreMeaning | api/internal/search/search.go:64-83 | the merge score is 100 exactly on equal word lists and 98 exactly when only the spacing differs |
| MergeScore.SameBagOfWordsMerges | api/internal/search/search.go:76-80 | texts whose words are permutations of each other score at least 95 |
| NormalForms.NormalFormIsWords | api/internal/search/search.go:11-18 | lower-casing, trimming, the regular expression and field splitting compute the alphanumeric words joined by spaces |
| NormalForms.NormalizeIdempotent | api/internal/search/search.go:13-18 | a normal form is its own normal form |
| NormalForms.NormalFormIsTidy | api/internal/search/search.go:13-18 | a normal form has no outer space and no two adjacent spaces |
| NormalForms.CaseIsIgnored | api/internal/search/search.go:13-18 | texts that differ only in the case of ASCII letters have one normal form |
| NormalForms.PunctuationIsIgnored | api/internal/search/search.go:11-18 | texts that differ only in which other runes separate their words have one normal form |
| NormalForms.SpacingIsIgnored | api/internal/search/search.go:11-18 | a run of separators counts as one, and those at an end not at all |
| NormalForms.FingerprintIsWords | api/internal/search/search.go:60-62 | the fingerprint is the words without any spacing |
| NormalForms.Slug | api/internal/search/search.go:20-38 | for every input and any Unicode tables the one-pass automaton with its flag computes the lower-cased runs of letters and digits joined by dashes, or `unknown` when there are none |
| NormalForms.SlugOfAscii | api/internal/search/search.go:20-38 | on ASCII the slug is the normal form with dashes for spaces, or `unknown` when that is empty |
| NormalForms.SlugByIdempotent | api/internal/search/search.go:20-38 | a slug is its own slug, under any tables in which lower-casing is idempotent and spaces and dashes are separators |
| NormalForms.SlugIdempotent | api/internal/search/search.go:13-38 | the slug of a normal form is ASCII, its own slug, and keeps the normal form of its text |
| Webhooks.CounterIsTrailingRun | api/internal/catalog/store_webhooks.go:89-110 | `failure_count` is the length of the run of failures that ends the recorded history |
| Webhooks.DisabledMeaning | api/internal/catalog/store_webhooks.go:98-110 | a subscription is disabled exactly when its history ever held five failures in a row, and `disabled_at` is the time of the first outcome that completed five |
| Webhooks.DisabledForever | api/internal/catalog/store_webhooks.go:102-107 | whatever is recorded later, the first disabling time stays |
| Webhooks.DeliveryDisables | api/internal/api/webhooks.go:214-233 | five failed posts with no success recorded between the first and the last leave the row disabled for every later event, whatever was recorded before the first |
| Webhooks.FailedDeliveryIsTheLast | api/internal/api/webhooks.go:200-233 | after such a delivery no later dispatch touches the row, whatever is recorded first |
| Webhooks.LastSuccessMeaning | api/internal/catalog/store_webhooks.go:89-96 | `last_success_at` is the time of the last success, or empty without one |
| Webhooks.WebhookStore.Deliver | api/internal/api/webhooks.go:214-233 | records the outcomes up to the first success, interleaved with those of others; when all posts fail and nobody records a success between the first and the last, the subscription ends up disabled |
| Webhooks.WebhookStore.Dispatch | api/internal/api/webhooks.go:200-212 | every row that was enabled and lists the kind gains the trace of one delivery and is reported exactly when it failed; every other row, disabled ones included, stays as it is and is not reported |
| Webhooks.WebhookStore.RecordWebhookFailure | api/internal/catalog/store_webhooks.go:98-110 | keeps the table the one its history determines |
| Webhooks.WebhookStore.RecordWebhookSuccess | api/internal/catalog/store_webhooks.go:89-96 | keeps the table the one its history determines |
| FtsQuery.QueryRoundTrip | api/internal/catalog/store.go:3848-3867 | parsing a built query as quoted prefix phrases gives back exactly the fields of the input, for every input |
| FtsQuery.OnlyPrefixPhrases | api/internal/catalog/store.go:3861-3867 | the parser refuses bare tokens and phrases without a star, so a built query has neither |
| FtsQuery.BuildQuery | api/internal/catalog/store.go:3848-3859 | the loop builds the escaped fields, one space apart |
| FtsQuery.QueryInjective | api/internal/catalog/store.go:3848-3867 | two inputs build the same query only when they have the same fields |
| Text.LessExactly | api/internal/catalog/store.go:3824-3824 | strings are ordered by the first rune in which they differ, a proper prefix first |
| Text.SpaceExactly | api/internal/catalog/store.go:3816-3816 | the white space that is trimmed is that of the Unicode property |

## Left out

- Handlers, middleware, feeds, telemetry, provider clients, parsers, migrations and backups: plumbing over libraries that are not part of this model.
- Ranking in the full-text indices and their agreement with the tables: a rebuild is capped at one hundred rows, so agreement does not hold in general.
- Row order: where SQL gives no order, the model allows every order, so an upsert may merge into any best match.
- Catalog.Store.RepairOrphans: a target of two columns stays a pair and is not printed with a colon in between.
- The columns of a quote that no property speaks of (source type, work title, year, license, timestamps), and those of a claim (source, timestamps, notes).
- Comparison of timestamps in merged quotes: for unparseable ones it is not a total order.
- Floating-point rounding: confidence and overlap are exact reals, and the confidence of a quote lies in [0, 1] as `docs/quality-model.md` says; the database does not enforce it.
- Invalid UTF-8: two different byte strings can have the same runes, and then the early exit for equal strings differs from the loop only in speed.
- NormalForms.Slug: the Unicode tables of lower case, letters and digits are parameters, not written out.
- Samples.SampleStore.RecordSampleEdge: the claim and the evidence that are recorded behind the row do not touch the samples table and are not part of this model; sample kinds are lower-cased on ASCII only.
- EntityGraph.InsertionsLoseNothing: work credits do not change between the requests; when they do, the ends of edges move and EntityGraph.FollowingReturnsEachOnce is what remains.
- The nodes of an entity graph, and the status and confidence columns of its edges: the nodes are looked up one by one for the edges of the page.
- Webhooks.WebhookStore.Deliver: a deletion of the subscription during a delivery is not interleaved; posts, signatures and the waiting between attempts are parameters or absent.
- Rekeying of artists and the legacy seed: neither goes through the near-duplicate search, so the uniqueness of normal forms is not claimed for them.
- Hash collisions: identifiers made by SHA-256 are identified with the strings that are hashed, which join their parts with bars.
- Quotes.CandidateExactly: with a bar inside an artist identifier different parts can join to one string, which is what the code hashes.
- Claims.ClaimIDExactly: the same holds for a bar inside one of the parts of a claim.
