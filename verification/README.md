# WikiPeople: a verified model

WikiPeople answers "who wrote this article?". Web requests and batch jobs put pages on a durable queue; workers lease
jobs, ask MediaWiki and WikiWho, and store an answer per (wiki, page, revision, algorithm); the API serves the latest
answer under the wiki's display policy. This project models that machinery in Dafny 4.11 and proves what it promises.
`dafny verify dfyconfig.toml` checks all of it.

| file | part of the system |
|---|---|
| `WorkQueue.dfy`, `Results.dfy` | the two central tables, one function per committed transaction, and the laws of single steps |
| `QueueSystem.dfy` | queue, results, clock and any number of workers as a state machine; its invariant; theorems over every run |
| `Hazards.dfy` | what the protocol does not promise, each with its exact condition |
| `Drain.dfy` | a potential that every worker step lowers, so draining the queue terminates |
| `Repository.dfy` | the `Repository` class, its methods specified by the transaction functions |
| `Worker.dfy` | the `Worker` class; an undisturbed `run_once` inside its lease is a run of the state machine |
| `Keyset.dfy`, `Replica.dfy`, `Resume.dfy`, `Handover.dfy`, `Backfill.dfy`, `Crashes.dfy`, `Recompute.dfy` | resumable walks over tables that change between batches |
| `Pageviews.dfy`, `Dates.dfy` | the daily page views added to the demand ranking, and the date text that marks a day done |
| `Counters.dfy` | request counters under racing update, insert and retry |
| `Attribution.dfy`, `History.dfy` | counting, ranking and naming through a bounded pool; the paginated reads |
| `Standing.dfy`, `Rotation.dfy` | the standing job and the fairness of its rationed lock checks |
| `Policy.dfy`, `Presentation.dfy`, `Api.dfy` | what a ready answer shows, and the decisions of the v2 endpoint |
| `Base.dfy`, `Sorting.dfy` | shared vocabulary, a stable insertion sort |

How to read it. A function ending in `Tx` is what one committed transaction does to a table; the methods of
`Repository` are proved to do exactly that, and the state machine of `QueueSystem` interleaves the same functions.
A transaction's clock reading is its own argument and may be older than the machine's clock when it commits. Where a
promise is false of the code, the lemma gives the exact condition under which it holds: `EnqueueDropsHighest`,
`RaceOverwritesPriority`, `SaveLowersLatest`, `SettledRowsStay`, all of `Hazards`, `FreshnessBoundary`,
`CursorRoundTrip`, `RepeatsExactly` and `CompleteWalkRepeats` with the walk of `RepeatingWalk`, `ViewsGrowExactly` with
`EveryDeathCounts`, `PoolIsLossless` with `PoolCanLose`, `LockRotationIsFair` with `FailuresStarveRotation` and the
rotation of `StarvingRotation`, `NameIsLostOnlyIf`, `SwitchIgnoresStanding`.

Assumptions. A worker acts on a lease only before the lease expires; one that outlives it never touches the row again,
as after a crash (`fail`, `supersede` and `complete` match on the row id alone, so without this exclusion fails, from
the first job on: `DisciplineIsNeeded`). `Worker.RunOnce` itself is specified on outlived leases too. `max_attempts` is
at least 1, batch sizes are at least 1, the lock recheck age is not negative. A database never hands out a row id
twice, as InnoDB's counter guarantees. The replica shows one row per page with non-negative id and size, main-namespace
articles only. `get_page` answers with the page id it was asked for. `resolve_users` files accounts under their own
ids. Editor ids are canonical decimal numbers.

Where code and documentation part ways, the model follows the code. A superseded row is not quite final: `process`
supersedes a stale job and then enqueues the current revision, and when that enqueue raises, `run_once` calls `fail` on
the row it has just superseded (`SettledRowsStay`). The default pool of 50 candidates with a 1% share does not meet the
bound that makes the pool lossless, since 51 × 1% is not more than 1 (`PoolCanLose`). At the very instant
`computed_at + freshness` the v2 handler calls an answer stale while `enqueue_if_stale` still declines
(`Api.FreshnessBoundary`). Switching the sanction rule off is meant to show sanctioned accounts like any other, but an
excluded account under a placeholder name is then linked even where the wiki labels or hides placeholder names
(`Presentation.SwitchIgnoresStanding`).

## Model

| member | source | states |
|---|---|---|
| WorkQueue.EnqueueFrame | src/wikipeople/repository.py:147-185 | an enqueue changes no other page, no greater revision, no dead or superseded row, and of a leased row at most its priority, which never falls |
| WorkQueue.EnqueueRows | src/wikipeople/repository.py:147-185 | it adds at most its own fresh row, removes none, and moves a row's state only from pending to superseded |
| WorkQueue.EnqueueKeepsUnique | src/wikipeople/models.py:65-75 | the unique key (wiki, page, revision, algorithm) survives every enqueue |
| WorkQueue.EnqueueClearsOlder | src/wikipeople/repository.py:147-185 | turned away by newer live work it changes nothing; otherwise no older revision stays pending, and the revision asked for is live or was already dead or superseded |
| WorkQueue.EnqueueDropsHighest | src/wikipeople/repository.py:159-185 | the page's highest live revision drops if and only if the revision asked for is dead or superseded and the highest live row is an older pending one |
| WorkQueue.RaceOverwritesPriority | src/wikipeople/repository.py:186-198 | once the job's row is there, the race path equals the normal path on the queue if and only if no older revision is left pending and the priority asked for is not below a live row's, or the update of a settled row changes nothing |
| WorkQueue.RivalledLikeAlone | src/wikipeople/repository.py:137-198 | a call beaten to its insert leaves the same rows in the same states as one that was not, at its own priority |
| WorkQueue.RivalledClearsOlder | src/wikipeople/repository.py:137-198 | raced or not, a call that is not turned away leaves no older revision pending and its own live or settled before |
| WorkQueue.EnqueueConverges | src/wikipeople/repository.py:137-185 | from a page with no rows, any sequence of enqueues leaves exactly one pending row, at the highest revision asked for and the highest priority asked for it, every other row superseded and older, other pages untouched |
| WorkQueue.EnqueueOrderIrrelevant | src/wikipeople/repository.py:137-185 | two orders of the same requests queue the same revision at the same priority |
| WorkQueue.ClaimFindsWork | src/wikipeople/repository.py:266-286 | whenever some unlocked row is claimable, a row that no claimable one outranks exists |
| WorkQueue.ClaimsComeInOrder | src/wikipeople/repository.py:266-286 | of two claims at one instant the later never takes a row of higher priority, nor an older one of the same priority |
| WorkQueue.EnqueuedIsClaimable | src/wikipeople/repository.py:147-175 | a newly queued job can be claimed at once, at the priority asked for and with all its attempts |
| WorkQueue.FirstComeFirstServed | src/wikipeople/repository.py:147-286 | of two jobs queued one after the other at one priority, the later is never claimed while the earlier can be |
| WorkQueue.BackoffBounds | src/wikipeople/repository.py:335-359 | the retry delay never shrinks with the attempts and stays between 30 and 21600 seconds |
| WorkQueue.BackoffSum | src/wikipeople/repository.py:335-359 | the first n failures wait 30 * (2^n - 1) seconds in all, for n up to 10 |
| WorkQueue.BackoffCapped | src/wikipeople/repository.py:335-359 | the six-hour cap applies from the 11th attempt on and not before |
| WorkQueue.ClaimHoldsRow | src/wikipeople/repository.py:266-298 | a claimed row can be claimed again exactly when its lease is over, and has used one more attempt |
| WorkQueue.FailureReschedules | src/wikipeople/repository.py:335-359 | a failed row can be claimed again exactly when the failure is not fatal and its backoff, at least 30 seconds, is over |
| WorkQueue.SupersededRowIsRetired | src/wikipeople/repository.py:316-333 | a superseded row is not claimable, and enqueueing its revision again does not bring it back |
| WorkQueue.RevivalReschedules | src/wikipeople/repository.py:361-375 | a dead row is claimable at once, at the given priority and with its attempts back; any other row is left alone |
| Results.LatestExists | src/wikipeople/repository.py:94-107 | a page with an answer has a latest one |
| Results.LatestIsReady | src/wikipeople/repository.py:94-107 | the latest answer decides since when the page has been ready |
| Results.CleanupKeepsLatest | src/wikipeople/repository.py:1027-1047 | whatever the cutoff and whichever obsolete rows are removed, every page keeps the very same latest answer |
| Results.SaveLowersLatest | src/wikipeople/repository.py:300-314 | a save takes a page's latest time back if and only if it overwrites its one latest answer with an earlier stamp |
| Results.SaveKeepsOnePerKey | src/wikipeople/repository.py:300-314 | after a save the key has one row, holding what was saved, and other keys are untouched |
| QueueSystem.StepKeepsInv | src/wikipeople/repository.py:122-375 | each of the 17 kinds of step keeps unique keys, well-formed rows, what every live lease relies on, and lease exclusion, and takes no delivered answer away |
| QueueSystem.RunKeepsInv | src/wikipeople/repository.py:122-375 | so does every interleaving of any number of workers, requests, conflicts, revivals and cleanups |
| QueueSystem.LeaseExclusion | src/wikipeople/repository.py:266-298 | in every reachable state two workers inside their leases work on different rows, and while both rows are leased on different keys |
| QueueSystem.LeaseChangesHands | src/wikipeople/repository.py:266-359 | a leased row changes only by the live worker that holds it or by a claim after the lease expired, which counts one more attempt |
| QueueSystem.SettledRowsStay | src/wikipeople/repository.py:320-375 | a dead row leaves `dead` if and only if revived; a superseded row comes back if and only if its own worker fails it after the requeue raised; either vanishes if and only if a cleanup passes its cutoff |
| QueueSystem.RetryBudget | src/wikipeople/repository.py:335-359 | in every reachable state a pending row has attempts to spare, and a leased row exceeds the budget by at most the claims made after a lease expired |
| QueueSystem.ReadyForever | src/wikipeople/repository.py:94-107 | over every run a page's latest answer never disappears and never gets older |
| QueueSystem.OneResultPerKey | src/wikipeople/models.py:37-47 | over every run there is at most one answer per key, however often its job ran |
| QueueSystem.LiveRowStep | src/wikipeople/worker.py:111-136 | one step removes a live row only when its worker completes it, and then the answer that worker stamped, or a strictly newer one, is stored |
| QueueSystem.NoJobIsLost | src/wikipeople/worker.py:85-149 | over every run, crashes included, a live row is still live, or has been dead or superseded on the way, or an answer for its revision stamped no earlier than `since`, or a newer one, is stored, for any `since` not after the stamps its workers hold |
| QueueSystem.WaitingJobIsNotLost | src/wikipeople/worker.py:85-149 | so a job waiting now stays live, or is settled on the way, or the page gets an answer computed from now on |
| QueueSystem.JobBoundary | src/wikipeople/worker.py:97-136 | at every step boundary of a job the row is still leased and claimable after expiry, with its answer stored once saved; once completed, its answer or a strictly newer one is stored; or the row is superseded |
| Hazards.LateFailureBreaksExclusion | src/wikipeople/repository.py:335-359 | a failure reported after losing the row lets a third worker claim it under the second one's lease if and only if it is not fatal and its backoff ends inside that lease |
| Hazards.LateCompleteBreaksExclusion | src/wikipeople/repository.py:316-318 | a completion after losing the row lets the same revision be claimed a second time under the second one's lease if and only if the page has no newer live work |
| Hazards.DisciplineIsNeeded | src/wikipeople/worker.py:50-83 | both are reached from the empty system, for every lease length the first can fit into |
| Hazards.PageGoesQuiet | src/wikipeople/repository.py:137-359 | one step takes a page from live work to none if and only if its only live row is completed, refused, superseded as stale or failed for good by its own worker, or an enqueue of a settled revision supersedes all that waited |
| Hazards.SecondPending | src/wikipeople/repository.py:335-375 | two revisions of a page come to wait at once if and only if a non-fatal failure or a revival puts a row back while another row of the page waits |
| Hazards.StaleJobAbandoned | src/wikipeople/worker.py:97-109 | when the worker lets go of a stale job, nothing is left for the current revision if and only if nothing was there before and the worker crashed, failed fatally or with its row cleaned up, or lost the insert to a row gone again by its update |
| Drain.StepLowersPotential | src/wikipeople/worker.py:50-149 | with revisions fixed, no new requests and no crashes, every worker step lowers a natural-number potential, the requeue of a stale job included |
| Drain.DrainTerminates | src/wikipeople/worker.py:50-149 | so no interleaving takes more worker steps than the potential it starts from |
| Drain.DrainEndsEmpty | src/wikipeople/repository.py:266-298 | while a live row is left and all workers are idle, a later claim succeeds |
| Repository.Repository.GetLatestResult | src/wikipeople/repository.py:94-107 | the answer computed last, ties to the greater id; none exactly when the page has none |
| Repository.Repository.SaveResult | src/wikipeople/repository.py:300-314 | the results become exactly the save transaction's |
| Repository.Repository.GetWork | src/wikipeople/repository.py:109-120 | finds the row of the key, or none exactly when there is none |
| Repository.Repository.Enqueue | src/wikipeople/repository.py:122-198 | the cached-answer check, the normal transaction, and the race against a rival whose insert commits first, each with its whole new queue |
| Repository.Repository.EnqueueIfStale | src/wikipeople/repository.py:200-223 | declines exactly when an answer at least as new as now minus freshness is stored; otherwise says truly whether the job is live |
| Repository.Repository.Claim | src/wikipeople/repository.py:266-298 | leases an unlocked claimable row such that every other has a lower priority, or the same and is no older; none only when there is none; the lease carries the row's own key and priority and one more attempt |
| Repository.Repository.Complete | src/wikipeople/repository.py:316-318 | removes exactly the row |
| Repository.Repository.Supersede | src/wikipeople/repository.py:320-333 | marks the row, if it is there, whatever its state |
| Repository.Repository.Fail | src/wikipeople/repository.py:335-359 | sends the row to dead or back to pending with its backoff, whatever its state, and stores whether the failure is permanent |
| Repository.Repository.Revive | src/wikipeople/repository.py:361-375 | resets a dead row and no other |
| Repository.Repository.Cleanup | src/wikipeople/repository.py:1005-1066 | drops exactly the dead or superseded rows, forgotten demand and old usage past their cutoffs, and answers older than the cutoff and than one that stays, 10,000 at most and all of them when fewer; counts all four, and every page keeps its latest answer |
| Repository.Repository.RecordPageRequest | src/wikipeople/repository.py:685-721 | adds one to the page's requests, on top of a rival's row when another worker inserted first, and touches no other page |
| Repository.Repository.CountRequest | src/wikipeople/repository.py:885-917 | the same for a day's outcome counter |
| Repository.Repository.RecordPageViews | src/wikipeople/repository.py:723-775 | over its 500-row chunks every counted page has its views added exactly once, missing pages are created, the two totals are right, and nobody's requests move |
| Repository.Repository.RecordChunks | src/wikipeople/repository.py:735-774 | a process that dies after some chunk transactions has added exactly the first 500 pages of each |
| Repository.Repository.PendingDemand | src/wikipeople/repository.py:777-798 | the first `limit` waiting lines: requests fall, then views, then ids, and a page left out comes after all of them |
| Repository.Repository.MarkDemandQueued | src/wikipeople/repository.py:800-818 | exactly the named pages' lines leave the ranking, no count of requests or views moves, other rows stay as they were, and the rows that were there are counted |
| Repository.Repository.RequeueStaleDemand | src/wikipeople/repository.py:820-842 | exactly the wiki's lines handed over more than the window ago go back in line, and they are counted |
| Repository.Repository.ResultsWithMetric | src/wikipeople/repository.py:940-969 | the first `limit` weak old rows behind the id cursor, ids rising, and a row left out comes after all of them |
| Workers.Worker.Attribute | src/wikipeople/worker.py:151-225 | names by tokens when that names anybody, by edits otherwise, as the function of what upstream says that the next rows are about |
| Workers.OnlyRefusalsAreSwallowed | src/wikipeople/worker.py:174-225 | a fault while reading or ranking tokens raises through unless it is permanent; a permanent one leaves the edit ranking, whose own faults all raise through |
| Workers.NobodyBetterIsLeftOut | src/wikipeople/worker.py:174-202 | when the tokens can be read and anybody qualifies, names go by tokens; under the pool's bound a registered person with enough tokens and share is named, or three with at least as many tokens are |
| Workers.EditorsAreNamed | src/wikipeople/worker.py:204-225 | where tokens name nobody, a history read to its end by no more accounts than the pool holds names the person by edits, or three who edited at least as often |
| Workers.AttributionHasEvidence | src/wikipeople/worker.py:151-225 | every name that function gives, at most three, is an account of the directory that exists, is not temporary, does not call itself a bot and is in no bot group, with its true count: by tokens past the significance gate, by edits only over a history read to its end |
| Workers.ComputedCountsEnough | src/wikipeople/worker.py:113-118 | the answer to store counts the editors less the bots, and never fewer than it names; names, tokens, metric, title and limit flag are what upstream gave |
| Workers.JobOutcome | src/wikipeople/worker.py:85-149 | the job ends with the first fault of the calls on its way, in their order; an answer is stored only for an article that is no redirect and still at the job's revision, and for one such whenever nothing raised |
| Workers.Worker.Requeue | src/wikipeople/worker.py:97-109 | supersedes the stale job and, raced or not, leaves the current revision answered, queued, settled or behind newer live work; a fault in between leaves the lease held |
| Workers.Worker.Publish | src/wikipeople/worker.py:120-141 | saves before it completes, so a row is never gone without its answer saved |
| Workers.Worker.Process | src/wikipeople/worker.py:85-149 | refuses, requeues or publishes; ends with the first fault raised on its way; saves exactly when the page is current and nothing raised before, and the row is gone exactly when the completion went through |
| Workers.Worker.Settle | src/wikipeople/worker.py:61-83 | a fault sends the row to dead or back to pending with its code, message, permanence and backoff; without one the row is superseded or gone; either way nobody holds it |
| Workers.Worker.RunOnce | src/wikipeople/worker.py:50-83 | claims exactly when something is claimable, never leaves its row leased whatever raises and however long it takes, stores exactly the computed answer; inside its lease, with nobody else writing between its claim and its own writes (`meanwhile` none), it is a run of the state machine |
| Keyset.WalkIsStrict | src/wikipeople/replica.py:35-44 | however the table changes, a keyset walk visits keys in strictly falling rank, none twice |
| Keyset.StableKeyNotSkipped | src/wikipeople/replica.py:35-44 | a key that stays put has been visited or is still behind the cursor |
| Keyset.ShortBatchEndsWalk | src/wikipeople/replica.py:109-134 | after a short batch every key that stayed put has been visited |
| Keyset.ConsecutiveReads | src/wikipeople/backfill.py:65-98 | reading a ranking, taking what was read out and reading again equals one longer read |
| Keyset.BatchIsUnique | src/wikipeople/replica.py:35-44 | a query has only one right answer |
| Replica.CursorRoundTrip | src/wikipeople/replica.py:67-78 | a cursor survives its stored text if and only if both parts are natural numbers |
| Replica.CompleteIsNoCursor | src/wikipeople/backfill.py:33-33 | the completion marker is never a cursor's text |
| Replica.PagesByDescendingLength | src/wikipeople/replica.py:109-134 | lengths fall, and ids within a length; every article behind the cursor that is left out is shorter, or as long with a smaller id, than all that are read; no cursor comes back if and only if the batch is short, and then nothing behind it was left in the snapshot |
| Replica.QueryIsBatch | src/wikipeople/replica.py:35-44 | sorting and cutting a snapshot is a keyset batch over its keys |
| Resume.StepsSplit | src/wikipeople/backfill.py:123-154 | stopping and resuming from the stored text puts out what one uninterrupted run would |
| Resume.RunsAreOneRun | src/wikipeople/backfill.py:123-154 | any number of runs of any lengths equal one run |
| Handover.HandOverAttendsAll | src/wikipeople/backfill.py:50-62 | after a batch every offered page, raced or not, is fresh, has a row for its revision, or is behind newer live work |
| Handover.OffersAtPriority | src/wikipeople/backfill.py:50-62 | however many pages a job offers and whoever races it, what it adds has its own priority, and nothing queued before is demoted |
| Backfill.NextSurvivesStorage | src/wikipeople/backfill.py:145-145 | the text stored after a batch gives its cursor back, and says complete exactly when there is none |
| Backfill.SizeRunCovers | src/wikipeople/backfill.py:123-154 | a run through stored texts hands articles over in strictly falling (length, id), and a stable one has been handed over or is still ahead |
| Backfill.BackfillCovers | src/wikipeople/backfill.py:123-154 | the same over any number of daily runs while pages are created, deleted and resized, lengths falling over all articles handed over; once complete, every stable article was handed over exactly once |
| Crashes.CrashFreeText | src/wikipeople/backfill.py:133-147 | runs may die after offering any part of any batch: the stored text is always the one the completed batches alone would have left, and those hand over what a walk without crashes would have |
| Crashes.CrashedWalkCovers | src/wikipeople/backfill.py:133-147 | however often runs die and the table changes, an article that stayed put has been handed over by a completed batch or is still ahead of the stored cursor |
| Crashes.RepeatsOnlyAfterCrash | src/wikipeople/backfill.py:144-145 | of two batches that hand over the same (length, id), the earlier one died before its cursor was stored |
| Crashes.RepeatsExactly | src/wikipeople/backfill.py:144-145 | at any moment of the walk, an article that stays put has come up twice if and only if a batch that handed it over died, and the walk has passed it since or a second batch that handed it over died too |
| Crashes.CompleteWalkRepeats | src/wikipeople/backfill.py:133-147 | over a walk that completes, an article that stays put comes up twice if and only if a batch that handed it over died before its cursor was stored |
| Crashes.RepeatingWalk | src/wikipeople/backfill.py:144-145 | such a walk: one article, a run that dies after offering it, and a second run that offers it again and completes |
| Crashes.BatchHasNoRepeats | src/wikipeople/replica.py:109-134 | within one batch, cut short or not, nothing comes up twice |
| Crashes.BackfillRuns | src/wikipeople/backfill.py:123-154 | any number of runs, any of which dies, hand over exactly what that walk does and leave its text |
| Crashes.DyingDemandBatch | src/wikipeople/backfill.py:82-91 | a demand run that dies before the mark hands over a part of the top of the ranking and leaves the ranking alone |
| Crashes.DemandAfterDeaths | src/wikipeople/backfill.py:82-91 | however many demand runs die before the mark, each of them and the run that gets through select the very same lines, which leave the ranking once |
| Backfill.MarkingTakesOut | src/wikipeople/repository.py:777-818 | marking some waiting lines takes exactly those out of the ranking |
| Backfill.EnqueuePages | src/wikipeople/backfill.py:50-62 | offers the pages in order at priority 10 and no others, and counts those whose job was live after their own offer; afterwards each page is fresh, has a row for its revision, or is behind newer live work |
| Backfill.StillArticlesAre | src/wikipeople/replica.py:136-155 | of the wanted pages exactly those the replica still has come back, each once |
| Backfill.DemandBatch | src/wikipeople/backfill.py:65-98 | selects the top of the ranking, attends to every selected page that is still an article at its present revision, and marks all of it, the pages the replica dropped included |
| Backfill.BackfillByDemand | src/wikipeople/backfill.py:101-120 | the batches select a prefix of one ranking, each line once; only an empty ranking stops early |
| Backfill.BackfillByLength | src/wikipeople/backfill.py:123-154 | the loop with its in-memory cursor hands over exactly the batches of the walk through stored texts, and leaves that walk's text |
| Backfill.BackfillWiki | src/wikipeople/backfill.py:176-191 | demand batches spent plus size batches never exceed max(1, batches), and size comes only after demand ran dry |
| Recompute.Sweep | src/wikipeople/recompute.py:48-98 | the next weak rows behind the stored cursor, each offered at its own revision and attended to, nothing added above priority 5; the cursor moves to the last, or to 0 after an empty pass |
| Recompute.Sweeps | src/wikipeople/recompute.py:48-98 | successive sweeps over changing results go on from each other's stored cursor: the passes the lap results are about |
| Recompute.LapSeesEachRowOnce | src/wikipeople/recompute.py:56-75 | in one lap ids rise strictly, and every row that stayed eligible comes up |
| Recompute.LapEnds | src/wikipeople/recompute.py:69-75 | with ids from a finite set, the passes before the reset are no more than the ids behind the cursor |
| Recompute.RecomputedRowLeavesSweep | src/wikipeople/recompute.py:80-90 | a recomputed answer replaces its row under the same id and takes exactly that row out of the sweep |
| Pageviews.DayTotalsAreSums | src/wikipeople/pageviews.py:85-117 | each wanted page's total is the sum of its lines that count, and a page without one is absent |
| Pageviews.ReadDailyViews | src/wikipeople/pageviews.py:85-117 | the loop computes those totals |
| Pageviews.LineAdds | src/wikipeople/pageviews.py:100-116 | one more line adds its fifth field to the page its third field names, in the wiki of its domain, when it reaches the floor, and nothing to any other page |
| Pageviews.BadLineAddsNothing | src/wikipeople/pageviews.py:101-109 | a line too short, or without whole numbers for page and views, adds nothing |
| Pageviews.TopPages | src/wikipeople/pageviews.py:120-123 | all pages when they fit, otherwise exactly `limit` of them, none viewed less than one left out |
| Pageviews.Collect | src/wikipeople/pageviews.py:132-170 | a day not after the recorded one changes nothing; otherwise every wiki's top pages are added and the day recorded last, and a process that dies leaves exactly the transactions it committed |
| Pageviews.DayAddsOnce | src/wikipeople/pageviews.py:154-166 | a recorded day adds each kept page's views exactly once and nothing to any other page |
| Pageviews.DayReleasesStale | src/wikipeople/pageviews.py:154-157 | a recorded day puts exactly the pages of its wikis handed over longer ago than the freshness window back in line, and takes none out |
| Dates.IsoOrder | src/wikipeople/pageviews.py:144-147 | ISO date text orders exactly as the dates do |
| Pageviews.MarkerRemembers | src/wikipeople/pageviews.py:144-147 | the marker text turns away exactly the days up to the one it names |
| Pageviews.RunAdds | src/wikipeople/pageviews.py:154-166 | wherever a run dies, it has added a page's views once if its transactions reached the page and not at all otherwise |
| Pageviews.ViewsGrowExactly | src/wikipeople/pageviews.py:132-170 | over any runs, complete or dead, a page's views in the demand table grow by exactly what the runs that reached it before the marker was written add |
| Pageviews.GrowthIsTimesDay | src/wikipeople/pageviews.py:132-170 | over one day's file that is the day's views times the number of such runs |
| Pageviews.EveryDeathCounts | src/wikipeople/pageviews.py:132-170 | until a run completes, every death after reaching the page has counted once |
| Pageviews.DaysAddedOnce | src/wikipeople/pageviews.py:132-170 | a day is added to a page at most once, plus once for each run that died between reaching the page and the marker, and never once the marker passes it |
| Counters.NoLostCounts | src/wikipeople/repository.py:685-721 | over every interleaving of update, insert and retry, also with view writers, a row's requests grow by exactly the calls finished |
| Counters.AllCallsCounted | src/wikipeople/repository.py:885-917 | once all calls are over, by exactly the number of calls |
| Attribution.CounterCounts | src/wikipeople/attribution.py:16-28 | a counter's entries are distinct, each is its editor's true number, and they sum to the total |
| Attribution.CountTokens | src/wikipeople/attribution.py:16-28 | the loop builds that counter, in the order editors are first seen |
| Attribution.CountIsTokens | src/wikipeople/attribution.py:16-28 | an editor's count is the number of the editor's own tokens that have a letter or a digit |
| Attribution.SelectRanked | src/wikipeople/attribution.py:37-111 | both ranking loops compute the named selection |
| Attribution.SelectNamesFirst | src/wikipeople/attribution.py:87-111 | the loop names exactly the first `limit` creditable entries of the ranking, in order |
| Attribution.TopAreNamed | src/wikipeople/attribution.py:37-111 | a known, nameable account that passes the gate is named with its count, or all places are taken by counts at least as large |
| Attribution.BeyondPool | src/wikipeople/attribution.py:31-34 | an account outside a pool of k has at most a (k+1)th of the total |
| Attribution.PoolIsLossless | src/wikipeople/attribution.py:31-111 | when (pool + 1) * minimum_share > 1, the pool names whom the whole directory would |
| Attribution.FullPoolIsLossless | src/wikipeople/attribution.py:31-111 | so it does, under either gate, whenever the pool alone fills the limit |
| Attribution.PoolCanLose | src/wikipeople/attribution.py:31-111 | for every setting below that bound there are counts and a directory where the pool names nobody and the directory somebody |
| History.GetEditorHistory | src/wikipeople/clients.py:218-256 | the counts tally the revisions read; complete if and only if the page never vanished and the budget outlasts all answers but the last, and then everything listed was read |
| History.BudgetSuffices | src/wikipeople/clients.py:218-256 | a history no longer than a positive budget is read to its end while the page is there |
| History.CategoryMembers | src/wikipeople/clients.py:451-488 | all members up to the limit, and truncated exactly when there are more |
| Standing.StandingTable.LockCheckCandidates | src/wikipeople/repository.py:562-586 | as many accounts never looked up or last before the cutoff as the limit allows; one left out was looked up no earlier than anybody picked |
| Standing.StandingTable.ReplaceStanding | src/wikipeople/repository.py:608-651 | the table becomes the records, and the additions and removals are counted |
| Standing.StandingTable.SyncWiki | src/wikipeople/standing.py:40-158 | an unreachable wiki changes nothing; otherwise the table is exactly the new records, and no more locks are checked than the budget |
| Standing.LockVerdict | src/wikipeople/standing.py:96-117 | without an answer about the lock the sanction verdict stands; an answer lifts it, or judges it by the reason just read or, failing that, the last one known |
| Standing.RecordFollowsReports | src/wikipeople/standing.py:88-145 | name and block are what the wiki has just said; the check time moves exactly when the whole check succeeded; an unanswered account keeps its record |
| Rotation.SyncRotates | src/wikipeople/standing.py:70-108 | a run over accounts all tracked is one turn of the rotation |
| Rotation.LockRotationIsFair | src/wikipeople/standing.py:70-108 | when fewer than `budget` checks fail per run, a stale or never-checked account gets its turn within ceil(n / (budget - failures)) runs |
| Rotation.NeverCheckedFalls | src/wikipeople/repository.py:562-586 | a run without failures takes min(budget, remaining) off the never-checked accounts |
| Rotation.FailuresStarveRotation | src/wikipeople/standing.py:70-108 | once `budget` stale accounts cannot be looked up, never checked or long ago, nobody who has waited less than they have is ever asked about again |
| Rotation.StarvingRotation | src/wikipeople/standing.py:70-108 | that does happen: for every budget, recheck age and number of runs there is a rotation that meets those hypotheses |
| Policy.NameableGrows | src/wikipeople/policy.py:190-236 | an account once nameable stays so as the threshold and the clock grow |
| Policy.NameableUnlessExcluded | src/wikipeople/policy.py:190-236 | an account is withheld if and only if it is locked as a sanction, or blocked on the whole wiki, not as a courtesy, for ever or for longer than the threshold with the block still running |
| Presentation.PresentedContributors | src/wikipeople/app.py:83-125 | the loop shows exactly the displayable contributors with their display |
| Presentation.ShownIsSubsequence | src/wikipeople/app.py:83-125 | the shown names are those stored ones the policy does not hide, in stored order |
| Presentation.NamedExactly | src/wikipeople/policy.py:337-379 | a stored name is left out if and only if the wiki hides what the account is: excluded, or else a placeholder name; a label stays a label, and a link needs a user page not known to be missing |
| Presentation.DefaultHidesExcluded | src/wikipeople/policy.py:306-308 | under the default policy exactly the excluded accounts are left out |
| Presentation.NamesOnlyWhenAllowed | src/wikipeople/app.py:128-167 | an article opted out, or a wiki that names nobody, shows no name; every other answer exactly the names above |
| Presentation.TotalIsConserved | src/wikipeople/app.py:128-167 | for every answer the worker stores and every view, names shown plus others is the stored total |
| Presentation.ConservedOnlyWithEnough | src/wikipeople/worker.py:115-118 | with every name shown, the total is conserved if and only if it is no less than the names: the worker's `max` is needed |
| Presentation.SwitchOnlyAddsNames | src/wikipeople/app.py:69-80 | the operator's switch off only adds names |
| Presentation.SwitchIgnoresStanding | src/wikipeople/app.py:69-80 | switched off, the rule shows a sanctioned account like any other if and only if it is not an excluded account under a placeholder name that the wiki shows otherwise than by a link |
| Presentation.NameIsLostOnlyIf | src/wikipeople/policy.py:337-379 | a name is lost as the threshold or clock grows if and only if sanctioned accounts are shown, anonymised ones hidden, and a placeholder name has just become nameable |
| Presentation.ShownGrows | src/wikipeople/policy.py:337-379 | with sanctioned accounts hidden, or anonymised ones not, the shown names only grow |
| Api.AskedMeans | src/wikipeople/app.py:349-369 | asking leaves a fresh page without a dead job alone, attends to a page without a fresh answer, and makes a dead job live unless it must stay dead |
| Api.FailureIsRefused | src/wikipeople/app.py:407-416 | after a failure the revision is refused if and only if the failure was permanent, or used up the attempts less than the retry delay ago |
| Api.PermanentStaysDead | src/wikipeople/app.py:349-369 | whatever readers ask for, in any number and however late, a job that failed for good keeps its dead row untouched |
| Api.ReadersGoFirst | src/wikipeople/app.py:349-369 | once a reader has asked for a revision nothing stands for yet, every claim takes a job of priority at least 100 until that one is claimed |
| Api.AskForWork | src/wikipeople/app.py:349-369 | revives what is due, enqueues if stale, and says truly whether the job is live |
| Api.FreshnessBoundary | src/wikipeople/app.py:344-346 | handler and queue judge an answer's freshness differently at exactly one clock reading, the instant it stops being fresh |
| Api.AskingQueues | src/wikipeople/repository.py:137-223 | without a dead job, the revision's job is live after asking if and only if it was before, or no answer is fresh to the queue and neither a row of the revision nor newer live work turns the call away |
| Api.StaleMeansQueued | src/wikipeople/app.py:344-365 | for a revision nothing stands for yet, calling an answer stale and queueing its job coincide if and only if the clock does not read that instant |
| Api.PageAttribution | src/wikipeople/app.py:325-447 | any stored answer is served, fresh or stale; without one the request is refused exactly while its job must stay dead, with that job's code; fresh and refused requests leave the queue alone, all others ask it; the page's and the day's counters each grow by one under the answer's own outcome, rivals included |

## Left out

- Attribution.CountTokens: token text and the alphanumeric test are an arbitrary predicate; Unicode classes are not modelled.
- Attribution.SelectRanked: shares are exact quotients; the rounding to four places and float division are not modelled.
- Replica.CursorRoundTrip: digits are ASCII; Python's `str.isdigit` also accepts other Unicode digits.
- Backfill.BackfillByDemand: holds with no other writer of the ranking between its batches, as its callers run it.
- Workers.Worker.RunOnce: the call's transactions share two clock readings, and what other processes do meanwhile happens at one point before it writes; finer interleavings are the state machine's part.
- Workers.Worker.RunOnce: a `fail` that itself raises is the state machine's crash; registering the wiki is only a place where a fault may be raised.
- Crashes.BackfillRuns: keeps the stored results fixed over all the runs of all days; a result saved between two batches only changes which offers are declined, not which pages are offered.
- Counters.NoLostCounts: the cleanup of demand rows nobody touched for half a year is not interleaved with the three transactions of a call.
- Pageviews.ViewsGrowExactly: the job is the only writer of views between its runs; the cleanup of forgotten rows is not interleaved.
- Api.PageAttribution: one clock reading serves the whole request, and the unsupported-wiki and validation answers are not modelled.
- Backfill.BackfillWiki: the totals of pages queued over several batches, which callers only log, are not specified.
- `run_forever` and `stop`'s effect on it: an endless polling loop.
- The v1 endpoint, `enqueue_if_revision_changed`, opt-out storage, display-policy storage, usage reports: simple relatives of what is modelled.
- Pageviews.TopPages: among pages viewed equally often the smaller id is kept here; the source keeps the one read first.
- Finding and decompressing the newest pageview dump: which day is found, and its lines, are inputs.
- Prewarming, on-wiki configuration, migrations: simple filters and plumbing.
- The title-order fallback of the backfill, and `demand_batch`'s log counts.
- Workers.AttributionHasEvidence: bot names and bot groups are arbitrary predicates; the regular expressions are not modelled.
- HTTP, JSON, streaming limits, ETags and `If-None-Match` (section 13.1.2 of RFC 9110): upstream answers are arbitrary inputs.
- SQL, dialects, row locks and isolation levels: each transaction is one atomic step, a lock is a row a claim may not take.
- Progress of a page whose current revision is already dead or superseded: the code does not promise it.
