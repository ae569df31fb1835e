# Verified model of the governance indexer

This project models the parts of the indexer whose correctness spans several functions or whole runs, and proves
the properties they exist for.

- **Actor identity** (`Actor*.dfy`, `AddressSpelling.dfy`): a union-find kept in four relational tables. Registrations and merges are atomic
  steps; the invariant of all tables is carried over every run, two independent lookup procedures are shown to agree,
  and the tables are shown to refine a plain quick-find map. `ActorStore` holds the same operations as a class.
- **Canonical addresses** (`MergeMap.dfy`, `DelegationFlows.dfy`, `Leaderboard.dfy`, `BasisPoints.dfy`): the merge map embedded in
  aggregate queries, and why ranking by rewritten address is ranking by actor.
- **AI batches and backfill** (`Ai*.dfy`, `SyncFeatures.dfy`): any number of drivers interleaving at every await and
  crashing anywhere, with a provider that answers anything. Cursor safety, exactly-once booking, and progress.
- **Keyset pagination** (`Pagination.dfy`, `Delegations.dfy`, `IsoTime.dfy`, `Calendar.dfy`, `Sorting.dfy`): walks
  over row sets that change between requests, and the delegations list's separate sort and seek.
- **Cursors** (`CursorCodec.dfy`, `Base64Url.dfy`, `CanonicalQuery.dfy`): the signed text form and the canonical
  query that ties a cursor to its filters.
- **Exact aggregates** (`Concentration.dfy`, `Tally.dfy`, `BucketGrid.dfy`): the exact arithmetic before the final
  conversion to a decimal fraction.
- **Derivation queue** (`Derivation*.dfy`, `OffchainDerivation.dfy`, `DlqQuarantine.dfy`): selection, holds, fairness, the
  two halves of a tick, and the dead-letter quarantine as a machine of single statements.
- **Off-chain drain** (`OffChainDrain.dfy`, `CursorResume.dfy`): the quiescence loop and deliver-then-advance.

Where the source changes state step by step, a method or class does the same here and is proved against a
specification function; the theorems are about that function and about runs of it. What the functions compute is also
stated in plain terms, on the rows and columns themselves (`…InPlainTerms` and the lemmas beside them). Generated ids, clocks, the
collation, Unicode normalisation, the signature and JSON text are parameters with the laws each theorem names.

Some properties one might expect do not hold of the code. Each is stated with the condition under which it does and
with an input or run that shows it fails:

- `findOrCreateByAddress` hands out a merged actor exactly when the address is redirected
  (`FindOrCreateByAddressLive`, `MergedActorHandedOutExample`).
- A late second statement of `findOrCreateActorAddress` leaves an address with two owners exactly when another actor
  has come to own it (`LateAddressRow`, `LateAddressRowExample`).
- A drain books its batch a second time exactly when the batch row is gone at its commit
  (`CommitIsFirstExactlyWhenOpen`, `OverlappingDrainsBookTwice`).
- A canonical query depends on the order of a scalar array exactly when members that compare equal differ once
  normalised (`OrderIgnoredExactlyWhen`, `IgnorableCharacterExample`).
- A dead letter can no longer be resolved exactly when its resolution stopped between insert and delete
  (`RemovableExactlyWhen`, `HalfResolvedExample`).
- A cursor move brings the backfill nearer its end exactly when its row is still ahead of the stored cursor; two drains
  at once move the cursor more often than there are rows (`CursorAdvancesExactlyWhenAhead`,
  `OverlappingDrainsBreakTheBound`).
- A tally by scores adds up to the whole exactly when no score is negative, and shows every voter exactly when nobody
  voted for a choice without a score (`ScoreShares`, `ScoredVotersCovered`, `ScoresExample`).

One thing reads differently than it acts: in the LIKE pattern `%projection_stage` the underscore stands for any one
character, and the model follows that (`StageNamesMatched`).

## Model

| member | source | states |
|---|---|---|
| `ActorTables.LowerIdempotent` | libs/db/src/actor-repository.ts:89-90 | lower-casing an already lower-cased address changes nothing, so every lookup and write sees the same key |
| `AddressSpelling.ResolvingIgnoresCase` | apps/api/src/actors/actor-routing.service.ts:18-25 | resolveAddress refuses what is not 0x and forty hexadecimal digits, and looks any other text up with A to F read as a to f |
| `AddressSpelling.SpellingsAreOneActor` | libs/db/src/actor-repository.ts:84-114 | two spellings of one address, registered in either order, are one live actor, and the second registration changes nothing |
| `AddressSpelling.RegistersExactlyWhen` | libs/db/migrations/0005_vote_delegation.ts:26-33 | an address can be registered exactly when it is 0x or 0X and forty characters more |
| `AddressSpelling.ProposalIsTheOwners` | libs/sources/snapshot/src/domain/proposal-projection-applier.ts:142-150 | an indexed proposal belongs to the live owner of its proposer's address, and no other proposal is touched |
| `ActorSchema.InsertAcceptedExactlyWhen` | libs/db/migrations/0005_vote_delegation.ts:26-71 | on any tables, the address insert ignores a row that is there and is otherwise refused exactly when the row would break a declared constraint |
| `ActorSchema.RetargetAcceptedExactlyWhen` | libs/db/migrations/0005_vote_delegation.ts:38-39 | moving an actor's rows is refused exactly when two rows would become one |
| `ActorSchema.RedirectAcceptedExactlyWhen` | libs/db/migrations/0005_vote_delegation.ts:41-51 | a redirect is refused exactly for an address that may not be stored or has one |
| `ActorSchema.PlanReports` | libs/db/src/actor-merge-repository.ts:189-212 | a plan names both actors with their primary addresses, counts the proposals and rows of the secondary, and lists the redirects to it |
| `ActorMerge.WritesDoNotCollide` | libs/db/src/actor-merge-repository.ts:232-277 | between two distinct live actors, no write of the merge transaction can violate a primary key, the partial unique index or a check constraint |
| `ActorMerge.MergeHasEffect` | libs/db/src/actor-merge-repository.ts:223-290 | the ordered UPDATE and INSERT statements have exactly the net effect of a merge on each of the four tables |
| `ActorMerge.MergeKeepsConsistent` | libs/db/src/actor-merge-repository.ts:254-277 | the invariant of all tables survives a merge, with the union-find forest in which the secondary hangs under the survivor |
| `ActorRuns.RegisterKeeps` | libs/db/src/actor-repository.ts:89-114 | findOrCreateActorAddress keeps the invariant, returns a live owner of the address, and fails exactly on an address the check constraint refuses |
| `ActorRuns.MergeOutcome` | libs/db/src/actor-merge-repository.ts:69-84 | which of the errors a merge reports, and that a success names the two current actors and counts what it will move |
| `ActorRuns.RunKeeps` | libs/db/src/actor-merge-repository.ts:223-290 | every run of registrations, proposals and merges keeps the invariant |
| `ActorResults.ChainsEndLive` | libs/db/src/actor-merge-repository.ts:254-277 | in every reachable state each merged_into chain is acyclic and ends at a live actor, and the redirect of a merged actor's primary address points exactly at that end, although parent pointers are never flattened |
| `ActorResults.RowsAreOwned` | libs/db/migrations/0005_vote_delegation.ts:38-70 | each address has one owner, the owner is live, and a row is primary exactly when its address is its owner's primary_address |
| `ActorResults.ProposersStayLive` | libs/db/src/actor-merge-repository.ts:231-237 | proposals written with live proposers never point at a merged actor, whatever merges follow |
| `ActorResults.RouteAgreesWithCoalesce` | libs/db/src/actor-routing-repository.ts:29-102 | for every address the three lookups and the coalesce rule name the same live actor or none, one followed redirect lands on an answer, and the third coalesce arm never decides |
| `ActorResults.RoutingAgreesWithCoalesce` | apps/api/src/actors/actor-routing.service.ts:18-51 | resolveAddress refuses exactly what does not look like an address, otherwise answers what the coalesce rule answers, and a redirect it gives does not lead to another |
| `ActorResults.FindOrCreateByAddressLive` | libs/db/src/actor-repository.ts:84-87 | findOrCreateByAddress returns a merged actor exactly when the address is redirected |
| `ActorResults.MergedActorHandedOutExample` | libs/db/src/actor-repository.ts:84-87 | a run after which it does: the address of a merged actor gives that actor back |
| `ActorResults.LateProposal` | libs/db/src/actor-merge-repository.ts:231-237 | a proposal inserted after its proposer was registered leaves every proposer live exactly when that actor still is |
| `ActorResults.MergeSucceedsExactlyWhen` | libs/db/src/actor-merge-repository.ts:119-136 | a merge succeeds exactly when both addresses have rows with different owners; otherwise the error says which |
| `ActorResults.MergeConservesRows` | libs/db/src/actor-merge-repository.ts:138-212 | a merge keeps the number of address rows, moves exactly the rows and proposals the plan counted, and leaves every other actor's alone |
| `ActorResults.LateAddressRow` | libs/db/src/actor-repository.ts:89-114 | when the second statement of findOrCreateActorAddress runs late, it gives the address a second owner exactly when another actor has come to own it |
| `ActorResults.LateAddressRowExample` | libs/db/src/actor-repository.ts:89-114 | the interleaving exists: a concrete run that ends with two owners |
| `ActorQuickFind.RunRefines` | libs/db/src/actor-routing-repository.ts:56-102 | a run keeps the agreement of the four tables with a plain quick-find map |
| `ActorQuickFind.TablesRefineQuickFind` | libs/db/src/actor-routing-repository.ts:56-102 | from the migrated tables on, over any run, resolving an address equals lookup in the quick-find map: two addresses share an actor exactly when successful merges united them |
| `ActorStore.MapLookups` | libs/db/src/actor-merge-repository.ts:101-117 | the loop indexes the last row per address asked for and reports the first address without one |
| `ActorStore.ActorStore.FindOrCreateByAddress` | libs/db/src/actor-repository.ts:84-87 | the method's new tables and result are those of the specification, the old row on a conflict |
| `ActorStore.ActorStore.FindOrCreateActorAddress` | libs/db/src/actor-repository.ts:89-114 | the two statements give the specified tables, also when the second is refused |
| `ActorStore.ActorStore.PlanMerge` | libs/db/src/actor-merge-repository.ts:138-212 | the loaded rows give the specified plan or error and change nothing |
| `ActorStore.ActorStore.WriteMerge` | libs/db/src/actor-merge-repository.ts:232-277 | the statements in order give the specified tables, and a statement that meets a constraint leaves them as they were |
| `ActorStore.ActorStore.ExecuteMerge` | libs/db/src/actor-merge-repository.ts:223-290 | a refused merge changes nothing, an accepted one has its whole effect and never meets a constraint |
| `MergeMap.CanonicalIsLabel` | libs/db/src/actor-routing-repository.ts:104-138 | the rewritten address is the label of what the address resolves to |
| `MergeMap.CanonicalIdempotent` | libs/db/src/analytics-read-repository.ts:167-173 | rewriting with the merge map twice is rewriting once |
| `MergeMap.CanonicalIdentifies` | libs/db/src/actor-routing-repository.ts:122-137 | two addresses are rewritten alike exactly when they resolve to the same actor, or are the same unknown address |
| `Leaderboard.PageIsTopActors` | libs/db/src/analytics-read-repository.ts:555-628 | over the latest delegation of each delegator, filtered to real delegates: grouping, ranking and cutting to N by canonical address equals the top N of true per-actor sums, in order, each positive |
| `Leaderboard.PageRunsByPower` | libs/db/src/analytics-read-repository.ts:582-592 | in plain terms: a row for each entity of the population up to N, powers falling from row to row, equal ones by address, and nobody left out with more power than anyone shown |
| `Leaderboard.RenderedInOrder` | libs/db/src/analytics-read-repository.ts:612-627 | the rows shown keep the page's order |
| `Leaderboard.PopulationIs` | libs/db/src/analytics-read-repository.ts:561-578 | a standing occurs in the population as often as delegators' latest events say it, if it has power and another delegate than the zero address |
| `Leaderboard.SumsAddUp` | libs/db/src/analytics-read-repository.ts:582-604 | an entity's sum and the total are added up standing by standing |
| `Leaderboard.NothingDroppedExactlyWhen` | libs/db/src/analytics-read-repository.ts:606-628 | the rows shown are all of the page exactly when each of its addresses belongs to an actor |
| `Leaderboard.PageShares` | libs/db/src/analytics-read-repository.ts:573-604 | with page and total over that one population, shares never sum above the whole; a page with every delegate misses it by less than a basis point a row |
| `DelegationFlows.Latest` | libs/db/src/analytics-read-repository.ts:561-568 | argMax picks an event of the delegator that none of its events is later than, or nothing when it has none |
| `DelegationFlows.RealDelegates` | libs/db/src/analytics-read-repository.ts:574-578 | exactly the standings with power and another delegate than the zero address, as often as they occur |
| `Leaderboard.CurrentVotingPowerByActor` | libs/db/src/analytics-read-repository.ts:495-546 | the chunked fold gives each actor the sum over its addresses of each one's latest delegation, whatever the chunk size |
| `Leaderboard.PowerAddsUp` | libs/db/src/analytics-read-repository.ts:495-546 | an actor's power is the sum over its addresses |
| `Leaderboard.OneAddressCounts` | libs/db/src/analytics-read-repository.ts:495-546 | and one address counts with the power of its latest delegation, for its owner alone |
| `BasisPoints.BpsMonotone` | apps/api/src/analytics/delegate-leaderboard.mappers.ts:5-9 | a larger part never shows a smaller share |
| `BasisPoints.SharesNearlyAll` | apps/api/src/proposals/proposal-tally.ts:152-155 | parts that make up a positive whole show between 10000 - (k - 1) and 10000 basis points, k of them being nonzero |
| `AiTables.ReturnedIsPersisted` | apps/ai-worker/src/batch/persist-batch-item.ts:33-113 | every returned item of a batch ends as an output or a dead letter |
| `AiTables.OutputsAfter` | apps/ai-worker/src/batch/persist-batch-item.ts:57-110 | a drain adds exactly the outputs its valid results answer |
| `AiTables.DeadLettersAfter` | apps/ai-worker/src/batch/persist-batch-item.ts:57-110 | and exactly the dead letters of the items with an invalid result |
| `AiTables.LedgerAfter` | apps/ai-worker/src/batch/persist-batch-item.ts:57-110 | when every result belongs to an item, a drain pays one ledger row for each, in order, with its row and its cost |
| `AiTables.CompleteMeans` | apps/ai-worker/src/batch/durable-batch.ts:64-66 | a batch is complete when for each of its items some result has its row, valid or not |
| `AiTables.BookedOnce` | apps/ai-worker/src/batch/persist-batch-item.ts:57-110 | a drain books each returned item once, valid or not, and nothing else |
| `AiTables.DrainUndoesRecord` | apps/ai-worker/src/batch/durable-batch.ts:67-101 | what a record puts in, its drain takes out, and the cursor moves to its position exactly when it has one and for every item some result has its row, valid or not |
| `AiCursorSafety.CursorNeverPassesARow` | apps/ai-worker/src/batch/durable-batch.ts:57-83 | in every state reached by any number of interleaved, crashing drivers, each corpus row at or below the cursor needed no item or has its result stored as an output or a dead letter |
| `AiCursorSafety.PageIsTheNextRows` | libs/ai/src/persistence/proposal-summary-scan-repository.ts:39-62 | a page is the next rows above the cursor in order, at most size of them, and no smaller one is left out |
| `AiCost.EachResultBookedOnce` | apps/ai-worker/src/batch/durable-batch.ts:67-81 | a recorded batch is open with nothing booked, or gone with each returned item booked once, when drains do not overlap |
| `AiCost.CommitIsFirstExactlyWhenOpen` | apps/ai-worker/src/batch/durable-batch.ts:67-81 | with new ids alone, in any run: a drain is the first to book its batch exactly when the batch row is still open at its commit, and otherwise books everything it returns once more |
| `AiCost.BookedAsOftenAsReturned` | apps/ai-worker/src/batch/durable-batch.ts:67-81 | the ledger holds an item of a recorded batch as often as commits returned it, so once exactly when one commit did |
| `AiCost.OverlappingDrainsBookTwice` | apps/ai-worker/src/batch/durable-batch.ts:41-47 | a run from the empty tables in which two workers drain at once and one item is paid for twice |
| `AiProgress.CursorMovesExactlyWhen` | apps/ai-worker/src/backfill/ai-backfill.service.ts:112-140 | with one backfill driver and drains that do not overlap, the cursor never moves back and moves exactly on an all-cached page or a complete drain, and the rows above it then strictly shrink |
| `AiProgress.MissingShrinksExactlyWhen` | apps/ai-worker/src/batch/durable-batch.ts:73-81 | a drain answers a new row exactly when it brings a valid result for a corpus row's key without an output |
| `AiProgress.ProductiveShrinksMissing` | apps/ai-worker/src/batch/durable-batch.ts:73-81 | a backfill drain, complete or not, with a valid result for an item without an output strictly shrinks the rows without one |
| `AiProgress.MissingNeverGrows` | apps/ai-worker/src/batch/persist-batch-item.ts:57-110 | no step of any driver makes an answered row unanswered |
| `AiProgress.MeasureFalls` | apps/ai-worker/src/backfill/ai-backfill.service.ts:112-140 | with one backfill driver and drains that do not overlap, the measure (rows above the cursor, rows without an output) falls lexicographically on every cursor move and every productive drain, and neither part ever rises |
| `AiProgress.CursorMovesAreBounded` | apps/ai-worker/src/backfill/ai-backfill.service.ts:112-140 | over any orderly run (one backfill driver, drains that do not overlap, new ids) the cursor moves at most once per corpus row |
| `AiProgress.CursorAdvancesExactlyWhenAhead` | apps/ai-worker/src/batch/durable-batch.ts:73-81 | in any run, however drivers overlap, a cursor move lowers the rows above the cursor exactly when its corpus row is still ahead of the stored cursor |
| `AiProgress.OverlappingDrainsBreakTheBound` | apps/ai-worker/src/batch/durable-batch.ts:41-47 | the run of two drains at once moves the cursor twice over a corpus of one row |
| `AiProgress.ProductiveDrainsAreBounded` | apps/ai-worker/src/batch/durable-batch.ts:73-81 | over any run there are at most as many productive drains as rows to answer |
| `AiProgress.ProgressIsBounded` | apps/ai-worker/src/backfill/ai-backfill.service.ts:112-140 | over any orderly run cursor moves and productive drains together number at most the corpus rows plus the rows to answer |
| `AiProgress.EmptyPageMeansSettled` | apps/ai-worker/src/backfill/ai-backfill.service.ts:112-122 | an empty page means every corpus row is settled |
| `AiDrivers.AiStore.PersistBatchItemResult` | apps/ai-worker/src/batch/persist-batch-item.ts:33-113 | one result writes the specified output or dead letter and one ledger row |
| `AiDrivers.AiStore.PollOpen` | apps/ai-worker/src/batch/durable-batch.ts:57-83 | the loop over results with cursor and deletion is the specified drain; waiting and idle change nothing |
| `AiDrivers.OnlyUncachedRowsAreSubmitted` | apps/ai-worker/src/backfill/ai-backfill.service.ts:142-168 | a row with an output is never submitted, and every other row is answered or submitted when the tick moves on |
| `AiDrivers.PageIsBuiltInOrder` | apps/ai-worker/src/backfill/ai-backfill.service.ts:123-132 | building a page answers exactly its inline rows, at no cost and once each, and keeps the page's order among the items |
| `AiDrivers.DriveBatch` | apps/ai-worker/src/backfill/ai-backfill.service.ts:112-140 | one tick of the driver leaves the specified tables in each of its exits |
| `AiDrivers.SubmittingTickIsARun` | apps/ai-worker/src/backfill/ai-backfill.service.ts:112-140 | the backfill's submitting tick is a run of the machine, so what holds of runs holds of it |
| `AiDrivers.LiveTickIsARun` | apps/ai-worker/src/summarizer/proposal-summary-batch.service.ts:66-97 | so is a live driver's submit, of its own candidates and without a backfill position |
| `AiDrivers.DrainingTickIsARun` | apps/ai-worker/src/summarizer/proposal-summary-batch.service.ts:50-64 | and so is the tick of either that finds its batch ended |
| `AiDrivers.WaitingTickIsARun` | apps/ai-worker/src/batch/durable-batch.ts:61-62 | a tick that finds its batch unended leaves everything as it was |
| `AiDrivers.CrashLosesMemory` | apps/ai-worker/src/batch/durable-batch.ts:41-47 | a crash loses what the worker held in memory and nothing else |
| `SyncFeatures.EveryPassedRowIsEnqueued` | apps/ai-worker/src/backfill/ai-backfill.service.ts:214-242 | across crashes and overlapping ticks every row at or below the stored cursor was enqueued, and an empty scan means all rows were |
| `Pagination.CompareIsTotal` | apps/api/src/pagination/cursor.ts:129-133 | keys of one query compare one way round and tie exactly where their values and their tiebreaks do |
| `Pagination.CompareIsTransitive` | apps/api/src/pagination/cursor.ts:122-133 | and the order is transitive in both directions, a strict step making the whole strict |
| `Pagination.SortedInDirection` | apps/api/src/pagination/cursor.ts:115-133 | exact values ascend or descend with dir, and equal values run by tiebreak the same way |
| `Pagination.SeekFacts` | apps/api/src/pagination/cursor.ts:141-155 | seeking keeps exactly the rows after the cursor, in order |
| `Pagination.PageFacts` | apps/api/src/pagination/cursor.ts:157-190 | a page is the rows after the cursor up to its last row, whose key is the next cursor; everything left behind is after that |
| `Pagination.PageInPlainTerms` | apps/api/src/pagination/cursor.ts:156-188 | a page runs strictly by value and tiebreak in the query's direction and is the first of the rows to come; has_more says exactly that a later row is not shown, and then the next cursor is the last row's |
| `Pagination.WalkIncreases` | apps/api/src/pagination/cursor.ts:141-190 | with rows inserted and deleted between requests, returned keys strictly increase across the whole walk |
| `Pagination.WalkReturnsEachRowOnce` | apps/api/src/pagination/cursor.ts:141-190 | a walk that ends returns every row present throughout with an unchanged key exactly once |
| `Pagination.PagesNeededIsCeiling` | apps/api/src/pagination/cursor.ts:165-166 | PagesNeeded is max(1, ceil(n / limit)) |
| `Pagination.FixedWalk` | apps/api/src/pagination/cursor.ts:141-190 | over a fixed row set the walk ends exactly when given that many pages, and its concatenation is the sorted list |
| `IsoTime.IsoTextOrder` | apps/api/src/delegations/delegations.controller.ts:291-293 | for four-digit years, comparing toISOString texts character by character compares the times |
| `IsoTime.IsoTextExample` | apps/api/src/delegations/delegations.controller.ts:124-125 | a leap-day timestamp has the text Date.prototype.toISOString gives |
| `Calendar.YearsStartWhereTheFormulaSays` | libs/db/src/analytics-read-repository.ts:31-53 | counting Gregorian months one by one agrees with ECMAScript's closed form for every year |
| `Delegations.ListIsSharedRequest` | apps/api/src/delegations/delegations.controller.ts:116-129 | the numeric sort with the text seek returns the pages the shared sort and seek returns |
| `Delegations.ListInPlainTerms` | apps/api/src/delegations/delegations.controller.ts:112-131 | the list shows the next delegations by time or block and then by id, up to the limit, has more exactly when a later one is not shown, and hands out its last row's value, id and direction |
| `Delegations.ListsArePageable` | apps/api/src/delegations/delegations.controller.ts:121-129 | rows whose ids the collation tells apart have keys that compare differently |
| `Delegations.ListWalkIsSharedWalk` | apps/api/src/delegations/delegations.controller.ts:265-305 | following next_cursor through the delegations list returns the rows of the shared walk and ends where it ends |
| `Delegations.ListReturnsEachRowOnce` | apps/api/src/delegations/delegations.controller.ts:116-137 | while delegations come and go, a walk of the list that ends returns each one present throughout with an unchanged key exactly once |
| `Delegations.ListFixedWalk` | apps/api/src/delegations/delegations.controller.ts:116-137 | over fixed delegations it ends after exactly max(1, ceil(n / limit)) pages, with the sorted list |
| `Base64Url.RoundTrip` | apps/api/src/pagination/cursor.ts:201-207 | unpadded base64url (section 5 of RFC 4648) decodes back and never emits the separator |
| `Base64Url.CapitalLetters` | apps/api/src/pagination/cursor.ts:200-206 | the first 26 sextets are written A to Z; the next lemmas give the rest of the alphabet |
| `Base64Url.ReadingTolerates` | apps/api/src/pagination/cursor.ts:204-206 | reading passes over whatever is in neither alphabet and takes + and / for - and _ |
| `Base64Url.TestVectors` | apps/api/src/pagination/cursor.ts:201-203 | test vectors of section 10 of RFC 4648 and the two URL letters |
| `CursorCodec.DecodeUndoesEncode` | apps/api/src/pagination/cursor.ts:24-64 | decodeCursor undoes encodeCursor for every payload that parses back |
| `CursorCodec.CursorText` | apps/api/src/pagination/cursor.ts:24-29 | a cursor is the payload bytes in base64url, a dot, and the tag of that text in base64url |
| `CursorCodec.AcceptedExactlyWhen` | apps/api/src/pagination/cursor.ts:31-64 | accepted is exactly a nonempty text, a dot and that text's tag, where the text's bytes parse |
| `CursorCodec.NextCursorAcceptedExactlyWhen` | apps/api/src/pagination/cursor.ts:66-74 | an issued cursor is accepted, and yields its key, exactly on requests whose query differs only in order, for separable queries |
| `CanonicalQuery.CanonIdempotent` | apps/api/src/pagination/cursor.ts:213-238 | canonicalising a canonical form changes nothing |
| `CanonicalQuery.CanonOfScalar` | apps/api/src/pagination/cursor.ts:213-216 | strings are put in NFC and other scalars kept |
| `CanonicalQuery.CanonOfArray` | apps/api/src/pagination/cursor.ts:218-224 | a scalar array is sorted by localeCompare of its texts and then normalised, and stays in place when it is sorted already; any other array keeps its order |
| `CanonicalQuery.CanonOfObject` | apps/api/src/pagination/cursor.ts:226-235 | an object's entries are sorted by localeCompare of their keys and their values canonicalised |
| `CanonicalQuery.CanonIgnoresOrder` | apps/api/src/pagination/cursor.ts:213-238 | in separable queries, where no two keys of an object tie and scalars that tie are equal once normalised, object keys and scalar arrays can be reordered, and strings respelled, without changing the form |
| `CanonicalQuery.CanonTellsApart` | apps/api/src/pagination/cursor.ts:17-22 | separable queries that differ in more than that have different forms |
| `CanonicalQuery.SameCanonExactlyWhen` | apps/api/src/pagination/cursor.ts:17-22 | two separable queries share their form exactly when one is a reordering of the other |
| `CanonicalQuery.EntriesSortEitherWay` | apps/api/src/pagination/cursor.ts:226-235 | sorting entries before or after canonicalising their values is the same |
| `CanonicalQuery.OrderIgnoredExactlyWhen` | apps/api/src/pagination/cursor.ts:218-221 | a scalar array's order is ignored exactly when members that compare equal are equal once normalised |
| `CanonicalQuery.IgnorableCharacterExample` | apps/api/src/pagination/cursor.ts:249-256 | two string values that localeCompare ties and NFC keeps apart: their order shows |
| `Concentration.ComputeGini` | apps/api/src/analytics/gini.ts:1-23 | the loop's numerator is the sum of w_j - w_i over all pairs i < j, in whatever order the weights come |
| `Concentration.GiniIsTextbook` | apps/api/src/analytics/concentration.mappers.ts:26 | sorted first, that is the textbook sum of absolute differences of the unsorted weights, over n times the total |
| `Concentration.GiniOfBucket` | apps/api/src/analytics/gini.ts:19-22 | the coefficient lies between 0 and (n - 1) / n |
| `Concentration.GiniExtremes` | apps/api/src/analytics/gini.ts:19-22 | it is 0 exactly when all weights are equal and (n - 1) / n exactly when one holder has everything |
| `Concentration.LagrangeIdentity` | apps/api/src/analytics/concentration.mappers.ts:13-19 | n times the sum of squares exceeds the squared total by the squared gaps of all pairs |
| `Concentration.EffectiveCountRange` | apps/api/src/analytics/concentration.mappers.ts:13-19 | the count lies between 1 and n, is n exactly on equality and 1 exactly when one holder has everything |
| `Concentration.TopSumIsMaximum` | apps/api/src/analytics/concentration.mappers.ts:6-11 | the top-n sum is the maximum over all selections of at most n holders, and is attained |
| `Concentration.TopSumGrows` | apps/api/src/analytics/concentration.mappers.ts:6-11 | it grows with n and is the whole total once n reaches the length |
| `Concentration.RowIsCoherent` | apps/api/src/analytics/concentration.mappers.ts:21-36 | over any positive total the top shares climb, to at most 1 where it covers the weights; over their sum the top share is at least one over the effective count; Gini is 0 exactly when the count is n |
| `Concentration.RowInPlainTerms` | apps/api/src/analytics/concentration.mappers.ts:21-36 | the columns are the textbook Gini fraction, the greatest shares of any one, five, ten and twenty holders, and the squared sum over the sum of squares, each 0 where there is nothing to divide by |
| `Tally.AssembleTally` | apps/api/src/proposals/proposal-tally.ts:51-69 | the Map loop and the assembly give the specified tally, from the scores when there are any and from the votes otherwise |
| `Tally.LastRowWins` | apps/api/src/proposals/proposal-tally.ts:52-61 | each voted choice carries the last of its rows, power that does not parse or is negative counting as none |
| `Tally.TallyShowsEveryChoice` | apps/api/src/proposals/proposal-tally.ts:157-159 | the choices are exactly the strictly ascending union of declared and voted indices |
| `Tally.TallyConservesPower` | apps/api/src/proposals/proposal-tally.ts:71-96 | powers sum to the total and voters to theirs, and each choice shows its last row |
| `Tally.ScoreShares` | apps/api/src/proposals/proposal-tally.ts:98-118 | the scored tally's shares are monotone in the score and sum to the sum of all scores over that of the positive ones, within half a basis point a choice; that is the whole exactly when no score is negative |
| `Tally.ScoredVotersCovered` | apps/api/src/proposals/proposal-tally.ts:98-118 | the scored choices show every voter exactly when nobody voted for a choice without a score |
| `Tally.ScoresExample` | apps/api/src/proposals/proposal-tally.ts:98-118 | a negative score with a negative share beside the whole, and a vote that no scored choice shows |
| `Tally.TallyShares` | apps/api/src/proposals/proposal-tally.ts:152-155 | percentages are monotone in power; with k choices of positive power the basis points sum to between 10000 - (k - 1) and 10000 |
| `Tally.VoteSharesAre` | apps/api/src/proposals/proposal-tally.ts:152-155 | each choice shows the voters of its last row, and its power's part of the total in basis points, rounded down |
| `Tally.ScoreChoiceIs` | apps/api/src/proposals/proposal-tally.ts:98-118 | the scored tally has one choice for each score in order, with that score, the voters of the last row for it, and its share of the positive total rounded to the nearest basis point, halves up |
| `BucketGrid.BucketGrid` | libs/db/src/analytics-read-repository.ts:31-53 | the loop gives aligned starts, each the successor of the one before, the first bucket holding from and the last holding to |
| `BucketGrid.DayAndWeekStarts` | libs/db/src/analytics-read-repository.ts:31-53 | days start every 86400000 ms from the epoch and weeks every seven days from Sunday 4 January 1970, each after the one before |
| `BucketGrid.MonthStarts` | libs/db/src/analytics-read-repository.ts:31-53 | months start at the first of one calendar month after another |
| `BucketGrid.GridClimbs` | libs/db/src/analytics-read-repository.ts:31-53 | the grid is strictly increasing |
| `BucketGrid.GridSize` | apps/api/src/analytics/bucket.ts:31-49 | the estimate is exact for months and at most one short for days and weeks, so the cap of 1000 bounds the grid by 1001 |
| `BucketGrid.GridExceedsEstimateExactlyWhen` | apps/api/src/analytics/bucket.ts:31-49 | the estimate is one short exactly when to stands earlier in its day (its week) than from does in its own |
| `BucketGrid.LargestGrid` | apps/api/src/analytics/dao-analytics.controller.ts:165-170 | a range with estimate 1000, which passes the cap, and 1001 buckets |
| `DerivationQueue.QueueFacts` | libs/db/src/archive-actor-resolution-repository.ts:73-111 | the queue holds exactly the derivable events, each once, in order |
| `DerivationQueue.SelectedIsDerivable` | libs/db/src/archive-actor-resolution-repository.ts:90-107 | a batch has at most limit rows and nothing derived, unresolved, held or quarantined |
| `DerivationQueue.SelectedInBlockOrder` | libs/db/src/archive-actor-resolution-repository.ts:102-105 | within a chain a batch runs by block and then by log index |
| `DerivationQueue.BatchInPlainTerms` | libs/db/src/archive-actor-resolution-repository.ts:73-111 | a batch is the first events that may be derived, by chain, block, log index and id, up to the limit: nothing that may be derived is left out in front |
| `DerivationQueue.WriteMeans` | libs/db/src/archive-derivation-repository.ts:110-141 | an outcome writes the columns of its own row and nothing else: the derived mark, the hold, or one more attempt |
| `DerivationRuns.HoldOnlyDefers` | libs/db/src/archive-derivation-repository.ts:117-133 | a derivable event that is held stays out of every batch before its hold ends, and after any such run of ticks is derivable again exactly from then on |
| `DerivationRuns.DerivedStaysOut` | libs/db/src/archive-derivation-repository.ts:110-116 | over any run of ticks without a reset of its row, a derived event is never selected |
| `DerivationRuns.ResetBringsBackExactly` | libs/db/src/archive-derivation-admin-repository.ts:22-43 | a watermark reset brings a derived event back exactly when it chose it and nothing else keeps it out |
| `DerivationRuns.ResetMeans` | libs/db/src/archive-derivation-admin-repository.ts:22-43 | a reset clears the derived mark and the attempts of the rows it chooses and nothing else |
| `DerivationQueue.TickMovesQueueUp` | apps/indexer/src/derivation/derivation-worker.service.ts:60-147 | after a tick the queue is what stayed of the batch followed by everything behind it |
| `DerivationQueue.SelectedExactlyWhen` | libs/db/src/archive-actor-resolution-repository.ts:73-111 | an event is selected exactly when, before some tick, enough rows have left to bring its place into the batch |
| `DerivationQueue.NoStarvation` | libs/db/src/archive-derivation-repository.ts:117-133 | when every selected row ends derived, held ahead or dead-lettered, the event at place p is selected at tick p / limit and no earlier |
| `DerivationQueue.FailingBatchBlocks` | libs/db/src/archive-derivation-repository.ts:121-125 | a batch whose rows never leave blocks everything behind it |
| `DerivationTables.RepeatedFailureCollapses` | libs/db/src/dlq-repository.ts:18-48 | a repeated failure adds no row, keeps the id, and takes the larger retry count and the new error |
| `DerivationTables.FailureIsRecorded` | libs/db/src/dlq-repository.ts:18-48 | a failure is written once: into the first active row of its event and stage, with the larger retry count, the time and the error, or else as a new row with all it was given |
| `DerivationTables.ResolutionIs` | libs/db/src/dlq-repository.ts:75-124 | a resolution needs an active row and no earlier resolution; it keeps the row under its kind and takes it out |
| `DerivationWorker.SplitIntoDispatchRuns` | apps/indexer/src/derivation/derivation-worker.service.ts:228-248 | the runs joined are the rows, each run has one dispatch key and the next has another |
| `DerivationWorker.KeyTellsApart` | apps/indexer/src/derivation/derivation-worker.service.ts:236 | rows share a dispatch key exactly when they share source type, chain and event type, as long as the first two hold no colon |
| `DerivationWorker.DerivationStore.Insert` | libs/db/src/dlq-repository.ts:25-48 | the upsert against the partial unique index |
| `DerivationWorker.DerivationStore.Accept` | libs/db/src/dlq-repository.ts:75-124 | the specified tables and answer, including not_found and already_resolved |
| `DerivationWorker.DerivationStore.MarkRetrySucceeded` | libs/db/src/dlq-repository.ts:126-174 | the same for a successful retry |
| `DerivationWorker.DerivationStore.RunTick` | apps/indexer/src/derivation/derivation-worker.service.ts:60-147 | selecting both batches first, cutting them into runs and applying these in turn is the on-chain tick, row by row, followed by an off-chain tick that selects for itself |
| `OffchainDerivation.OffchainBatchFacts` | libs/db/src/archive-actor-resolution-repository.ts:151-175 | an off-chain batch has at most limit rows, all derivable, in order of chain, ordinal (rows without one last) and id; a derivable row left out stands behind a full batch |
| `OffchainDerivation.OffchainBatchInPlainTerms` | libs/db/src/archive-actor-resolution-repository.ts:151-175 | an off-chain batch is the first rows that may be derived: ordinals do not fall, rows without one come last, equal ones run by external id and id, up to the limit |
| `OffchainDerivation.OffchainBatchStays` | apps/indexer/src/derivation/derivation-worker.service.ts:69-73 | whatever the on-chain half writes, the off-chain batch selected before it is the one that would be selected after it |
| `OffchainDerivation.OffchainLeavesQueue` | apps/indexer/src/derivation/derivation-worker.service.ts:104-124 | whatever the off-chain half writes, the on-chain queue stays as it is, so what holds of the queue over on-chain ticks holds over whole ticks |
| `DlqQuarantine.RunKeeps` | libs/db/migrations/0003_ingestion_dlq.ts:36-71 | over any run of single statements, failures have one active row per event and stage, a dead letter is resolved at most once, and an id means one failure in both tables |
| `DlqQuarantine.ReachableKeepsKeys` | libs/db/migrations/0003_ingestion_dlq.ts:36-71 | so in every state reached from empty tables |
| `DlqQuarantine.ResolveIsThreeSteps` | libs/db/src/dlq-repository.ts:75-124 | a resolution run without interruption is its read, insert and delete |
| `DlqQuarantine.QuarantineEndsOnlyByRetry` | libs/db/src/dlq-repository.ts:108-123 | no statement but the delete of a recorded successful retry ends a quarantine, the one between insert and delete of accept included |
| `DlqQuarantine.RetryReleasesExactlyWhen` | libs/db/src/dlq-repository.ts:126-174 | that delete ends it exactly when no acceptance and no other active failure of the event remains |
| `DlqQuarantine.QuarantinedUntilReleased` | libs/db/src/archive-actor-resolution-repository.ts:16-56 | until then the event is not selected, in any later state, at any time and for any batch |
| `DlqQuarantine.FailureQuarantinesUntilReleased` | libs/db/src/archive-actor-resolution-repository.ts:16-56 | from empty tables on, in any run: once an event is dead-lettered at a projection stage it is in no batch until a successful retry deletes its row |
| `DlqQuarantine.AcceptedForever` | libs/db/src/archive-actor-resolution-repository.ts:16-24 | an accepted event is never selected again, whatever runs afterwards |
| `DlqQuarantine.HalfResolvedForever` | libs/db/src/dlq-repository.ts:110-123 | a resolution interrupted after its insert can never be finished: after any run every attempt answers already_resolved, changes nothing, and the row is still there |
| `DlqQuarantine.RemovableExactlyWhen` | libs/db/src/dlq-repository.ts:75-124 | an active dead letter can still be removed, by some run, exactly when it is not half resolved |
| `DlqQuarantine.HalfResolvedExample` | libs/db/src/dlq-repository.ts:110-123 | and a resolution that stops between its insert and its delete gets there |
| `DerivationTables.StageNamesMatched` | libs/db/src/archive-actor-resolution-repository.ts:31-38 | the LIKE pattern accepts exactly a prefix, projection, any one character and stage |
| `OffChainDrain.RunOffChainDrain` | apps/admin-cli/src/commands/offchain-backfill.ts:53-90 | a drain that ever stops does so at the first tick where it goes quiet or is aborted, having delivered every polled item in order and stored the last cursor; it answers completed only when quiet, and cancelled exactly when the signal is seen raised after the loop |
| `OffChainDrain.DrainStopsInTime` | apps/admin-cli/src/commands/offchain-backfill.ts:46-52 | when the cursor changes at most A times it stops, within (A + 1) K ticks |
| `OffChainDrain.Producer.CommitTick` | apps/admin-cli/src/commands/offchain-backfill.ts:160-187 | items are delivered in order and the cursor is stored after them |
| `OffChainDrain.TicksPerChange` | apps/admin-cli/src/commands/offchain-backfill.ts:66-90 | before going quiet, ticks are bounded by K per change of the cursor |
| `OffChainDrain.QuietMeans` | apps/admin-cli/src/commands/offchain-backfill.ts:78-79 | the drain has been quiet for k ticks exactly when each of the last k left the cursor where it was |
| `OffChainDrain.ChangesMean` | apps/admin-cli/src/commands/offchain-backfill.ts:75-76 | its changes are the ticks that moved the cursor |
| `OffChainDrain.BoundIsReached` | apps/admin-cli/src/commands/offchain-backfill.ts:46-52 | for every A and K some listener keeps the drain going that long |
| `CursorResume.NothingIsEverMissed` | apps/admin-cli/src/commands/offchain-backfill.ts:260-282 | across crashes anywhere and resumed or overlapping runs, everything at or before the stored cursor was delivered, for listeners whose pages hold what their cursor passes |
| `CursorResume.StoredPagesAreDelivered` | apps/admin-cli/src/commands/offchain-backfill.ts:160-187 | for any listener and the same runs: every item of every page whose cursor was ever stored was delivered, and the stored cursor is that of the last such page |
| `SyncFeatures.PagePassesItsRows` | apps/ai-worker/src/backfill/ai-backfill.service.ts:224-239 | a keyset page passes exactly its own rows, so such scans meet the contract the resume theorem asks for |

## Left out

- Delegations.ListIsSharedRequest: years 0 to 9999 only; toISOString writes other years with a sign and six digits, and text order is not time order there.
- Delegations.ListWalkIsSharedWalk: the collation is assumed to order fixed-width timestamps character by character.
- AiProgress.CursorMovesAreBounded: assumes one backfill driver and drains that do not overlap; so do `CursorMovesExactlyWhen`, `MeasureFalls` and `ProgressIsBounded`. `CursorAdvancesExactlyWhenAhead` holds without it.
- AiTables.BookedOnce: assumes that the provider returns at most one result per item of a batch; so do `BookedAsOftenAsReturned` and `EachResultBookedOnce`. A repeated result is persisted and booked again.
- AiCost.EachResultBookedOnce: assumes drains of one feature do not overlap; the live and backfill drivers guard themselves with separate in-process flags. `CommitIsFirstExactlyWhenOpen` and `BookedAsOftenAsReturned` hold without it.
- AiCursorSafety.CursorNeverPassesARow: the corpus and the cached inputs are fixed, and outputs deleted by an operator are not part of the machine.
- CursorResume.NothingIsEverMissed: the listener's page contract is assumed of the off-chain listeners, whose code is not part of this model; for keyset scans it is proved, and `StoredPagesAreDelivered` needs none.
- DerivationQueue.NoStarvation: at a fixed time; holds that expire or events that arrive in front can delay a row further, as `SelectedExactlyWhen` shows for leavers alone.
- ActorResults.ProposersStayLive: a proposal step registers its proposer and inserts the proposal at once; `LateProposal` says what the two statements apart need.
- DerivationWorker.DerivationStore.RunTick: an applier's writes for one row are atomic and its outcome is arbitrary; a dead letter of an off-chain row names no on-chain event.
- DerivationRuns.DerivedStaysOut: no event is archived during the run; arrivals change no other row's columns.
- DelegationFlows.Latest: where two events of one delegator share created_at the query may take either, and even the delegate of one with the power of the other; one event is taken here.
- Leaderboard.PageIsTopActors: the ClickHouse queries are functional specifications; the query planner and replacing-merge semantics are trusted.
- Leaderboard.PageRunsByPower: delegator_count, which counts each group's rows, is not modelled.
- Concentration.ComputeGini: numerator and denominator are exact; the final floating-point division is not modelled.
- Tally.AssembleTally: scores and their quotients are exact reals, without floating-point rounding; the summary with labels is not modelled.
- The two statements of `findOrCreateActorAddress` run as one step in the run theorems; their interleaving is the subject of `LateAddressRow`.
- Audit columns (merged_at, merge_reason, created_by, display names, timestamps of writes) do not influence any modelled branch.
- Lower-casing is for the hexadecimal alphabet; other letters cannot pass the address check.
- The order in which `loadAddressRows` returns rows: an address has one row in every reachable state.
- A crash between `submitBatch` and `record` leaves a batch at the provider that no table mentions; the rows are submitted again.
- Batches of one feature are found oldest first by insertion order, which stands for the submission timestamp.
- Several batch features at once: each has its own cursor and batches, so one feature is modelled.
- The derivation repository's own selectors and the unresolved-actor selectors: the same shape with other columns and without the quarantine.
- Derivation appliers, the event poller and the DLQ retry adapter: an applier's outcome per row is arbitrary.
- `alignment` and the current-delegators list: neither goes through the shared sort and seek.
- `parseLimit`, flag parsing, ETags, API keys, proposal state transitions and backfill mode selection: easy members.
- Pacing between drain ticks, process signals other than the abort check, metrics, logging and HTTP: plumbing.
- HMAC, SHA-256, JSON text, Unicode NFC and collation are parameters; timing-safe comparison is equality.
- A JSON object's own reordering of integer-like keys: filter names are identifiers.
- Postgres, ClickHouse and pg-boss themselves: statements are atomic and constraints are enforced as declared.
