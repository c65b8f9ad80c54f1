# FundingPulse: a Dafny model of its protocols and query rewrites

FundingPulse collects funding rates of perpetual futures. This project models the parts of it whose
correctness spans several functions, several transactions or several concurrent jobs, and proves what
they keep.

| file | what it models |
|---|---|
| `Prelude.dfy` | options, results, bucket arithmetic, sorted sets |
| `LiveQueue.dfy` | the `ingestion_task` table, its guarded statements (class `TaskTable`), the worker's polling loop |
| `LiveProtocol.dfy` | whole runs of one enqueuer, any number of workers, crashes and one clock over that table |
| `TaskKeys.dfy` | the text of a task's idempotency key and why it identifies one (exchange, minute) |
| `HistoryStore.dfy` | one contract's stored points and checkpoint row, and the transactions on them (class `HistoryTable`) |
| `HistoryProtocol.dfy` | any number of backfill and update jobs interleaved at their await points |
| `HistoryFromNull.dfy` | the same jobs while nothing is stored and both take their windows from the clock |
| `HistoryTrap.dfy` | for exactly which exchanges those jobs never leave a gap |
| `HistoryBackfill.dfy` | the backfill loop: executed in place, its termination, cutting it anywhere and restarting |
| `HistoryRestart.dfy` | restarts without stored bounds: which attempt decides, and which clocks agree |
| `HistoryUpdate.dfy` | the freshness gate and the forward fetch |
| `FundingDifferences.dfy` | the cumulative differences query: pairs, shared windows, aggregation, join |
| `Paradex.dfy` | hourly aggregation and the live cache (class `LiveCache`) |
| `Registry.dfy` | reconciling published contracts with the contract table (class `ContractTable`) |
| `ViewRefresh.dfy` | the debounced refresh of the materialized view (class `MaterializedViewRefresher`) and its runs |
| `SmartView.dfy` | which layers of `lfp_smart` show an instant |
| `Backpack.dfy` | offset and limit arithmetic |
| `QueryState.dfy` | the arbitrage page's filter state in the URL |
| `ChartSeries.dfy` | aligned chart columns and the spread series |

Code that changes state in place is a class or a loop, proved against a specification function; the
results are lemmas about those functions. Protocols are transition systems: one step is one database
transaction, one change in a job's memory, a crash, or the passing of time, and the results quantify over
every run. Instants are exact integers (microseconds in the live queue, milliseconds in the history,
Paradex and refresher models, seconds elsewhere) and rates are reals.

`dafny verify dfyconfig.toml` checks the whole project.

## Assumptions

- **Live protocol.** One enqueuer tick at a time, one shared clock, and a worker stops collecting within
  `task_timeout + stale_running_grace` of its `claimed_at`. The last is the guard of the step that advances
  the clock; finalisation itself may come arbitrarily late. The claim step may take any pending row, which
  covers the choice by creation time and key text that `TaskTable.GetNextPending` makes.
- **History.** The exchange is a finite map of settled points. An adapter answer holds exactly the settled
  points of the requested window, in any order and with any repetition (`HistoryStore.IsAnswer`), and
  settlements are at least a second apart, as whole-second timestamps are. Results
  that need this say `IsFaithfulRun`; the others hold for every adapter.
- **History from null bounds.** A job stops within its timeout of 59 minutes, and an update reads its clock within
  a minute of the checkpoint (it does so right after the query returns).
- **Materialized view.** A refresh is three moments: it starts, the database takes its snapshot, it commits or
  fails.

## Where the code is narrower than its intent

Each of these has a lemma with the exact condition or a concrete run.

- A reaped task is replaced in the same tick for every reachable state exactly when the lease plus one
  microsecond covers a minute (`LiveProtocol.ReplacementIffLeaseCoversMinute`). With a shorter lease the
  tick finds its own key taken and the exchange waits for the next minute.
- Jobs that start from null bounds take their windows from the clock. Every timely run of an exchange from nothing
  is gap-free exactly when its timeline has no trap, a settlement between a possible request and the hour from
  which an update in the same two hours starts (`HistoryTrap.GapFreeIffTrapFree`). Settlements on whole hours, or at
  least 118 minutes apart at any second, have none (`HistoryFromNull.WholeHoursAreSafe`,
  `HistoryFromNull.TwoHoursApartAreSafe`); half-hourly ones can be missed
  (`HistoryFromNull.OffHourSettlementMayBeMissed`), unless the first batch has no competitor
  (`HistoryFromNull.GapFreeWhenUncontested`). One commit keeps a history gap-free exactly when nothing lies
  between its window and the stored range (`HistoryProtocol.CommitGapFreeIff`).
- An empty window proves the history exhausted exactly when settlements are never further apart than the
  window plus one second (`HistoryProtocol.ExhaustionIffGapsWithinStep`).
- A restart without stored bounds asks from its own clock. Cut attempts and a final run end like an
  uninterrupted run exactly when the first windows of the deciding clock and of that run have the same newest
  settlement, or are both empty (`HistoryRestart.CrashEquivalentIff`).
- The query aggregates per distinct (`max_interval_hours`, window) but groups by the window alone, so two
  intervals that align to one window multiply the totals. All totals, and all differences, are right on every set
  of records exactly when no two distinct intervals share a window that can hold a record
  (`FundingDifferences.SharedFormExactIff`); a request over whole days shares the windows of 4 and 8 hours
  (`FundingDifferences.WholeDaysAreMiscounted`).
- A signal that arrives between the snapshot and the end of a refresh is cleared with it; the view is then
  current exactly when the contracts are still those of the snapshot (`ViewRefresh.FinishedViewIffUnchanged`,
  `ViewRefresh.LostSignalRun`).
- Backpack's forward limit is one short when the phase of the bound is ahead of the clock's
  (`Backpack.AfterLimitCountsSettled`), and its backward walk repeats the first record instead of getting an
  empty answer, except in the last second of an interval (`Backpack.ExhaustedRequestRepeatsFirst`).
- The period parser asks whether a value is `in` the label record, which is also true of the property names
  every object inherits (`QueryState.UnlistedPresetIffInherited`).

## Model

| member | source | states |
|---|---|---|
| LiveQueue.ScheduleMeaning | fundingpulse/ingestion/live/enqueuer.py:83-115 | the insert loop keeps every row and adds exactly one pending row per listed exchange without active work whose key for the minute was free |
| LiveQueue.TaskTable.MarkStaleRunningFailed | fundingpulse/ingestion/live/queries.py:35-58 | exactly the running rows claimed before the stale threshold become failed with the reaper's error; their keys are returned |
| LiveQueue.TaskTable.InsertPendingTask | fundingpulse/ingestion/live/queries.py:82-105 | a pending row is added iff the key is free; the answer says which |
| LiveQueue.TaskTable.EnqueueTick | fundingpulse/ingestion/live/enqueuer.py:66-134 | one tick leaves the reaped and scheduled table; its counters are the growth of the table, the listed places whose exchange has a pending row or a running one that is not stale, the reaped rows and the rest |
| LiveQueue.ReapMeaning | fundingpulse/ingestion/live/queries.py:35-58 | row by row: a running row claimed before the threshold becomes failed at the instant of the tick with the reaper's error type and message, keeping its worker and claim; every other row stays |
| LiveQueue.TickSchedulesIff | fundingpulse/ingestion/live/enqueuer.py:66-134 | a tick adds a row iff its exchange is listed, its key for the minute is free and the exchange has no pending row and no running one that is not stale; the row is pending with nothing else set |
| LiveQueue.IdleExchangeIsScheduled | fundingpulse/ingestion/live/queries.py:61-79 | a listed exchange whose rows are all done, failed or stale gets its pending row |
| LiveQueue.BusyExchangeIsSkipped | fundingpulse/ingestion/live/queries.py:61-79 | a pending row, or a running one that is not stale, keeps every new row of its exchange out |
| LiveQueue.TickKeeps | fundingpulse/ingestion/live/enqueuer.py:66-134 | a tick changes the rows it finds only by reaping them |
| LiveQueue.TaskTable.GetNextPending | fundingpulse/ingestion/live/queries.py:108-121 | the first pending row by creation time and key text that no other transaction holds, or none iff every pending row is held |
| LiveQueue.TaskTable.ClaimNextPending | fundingpulse/ingestion/live/worker.py:121-139 | that row becomes running for this worker at this instant and nothing else changes; none iff there is none |
| LiveQueue.TaskTable.MarkDone | fundingpulse/ingestion/live/queries.py:124-149 | the row becomes done, without error and with its finish time, iff it is running for this worker; otherwise nothing changes |
| LiveQueue.TaskTable.MarkFailed | fundingpulse/ingestion/live/queries.py:152-179 | the row becomes failed with the error iff it is running for this worker; otherwise nothing changes |
| LiveQueue.TaskTable.FinaliseTask | fundingpulse/ingestion/live/worker.py:63-108 | a row that is still this worker's becomes done after a collection, else failed with the timeout's or the exception's type and message, and the answer says the same; any other row stays and the call raises |
| LiveQueue.ExecuteOne | fundingpulse/ingestion/live/worker.py:43-108 | one poll claims, collects while the others change the table, and finalises: nothing iff no free pending row; else its row ends done iff the collection went well and failed if not, or failed by the reaper (refused), or running (cancelled) |
| LiveQueue.RunWorkerLoop | fundingpulse/ingestion/live/runtime.py:38-75 | whatever the enqueuer and the other workers do between its statements: only a cancellation ends the polling early, a refused finalisation is a sleep and one more turn, every turn's row stays as it left it, and a stopped worker holds no running row |
| LiveProtocol.StepKeepsInv | fundingpulse/ingestion/live/queries.py:35-179 | every step keeps: one active row per exchange and it is the latest scheduled, each claim is its worker's running row unless reaped after the lease |
| LiveProtocol.RunKeepsInv | fundingpulse/ingestion/live/queries.py:35-179 | the invariant holds at every instant of every run |
| LiveProtocol.TimedMutualExclusion | fundingpulse/ingestion/live/worker.py:53-98 | at no instant of any run do two workers collect the same exchange |
| LiveProtocol.RefusedOnlyAfterReap | fundingpulse/ingestion/live/worker.py:85-98 | a finalisation is refused iff the reaper failed the row, never inside the lease, and a refused one changes no row |
| LiveProtocol.StepEvolves | fundingpulse/ingestion/live/queries.py:35-179 | one step moves a row at most along pending, running, done or failed |
| LiveProtocol.LifeCycle | fundingpulse/ingestion/live/queries.py:124-179 | between any two instants a row only moves forward; claim time and worker are fixed once set and a terminal row never changes |
| LiveProtocol.ClaimedAtMostOnce | fundingpulse/ingestion/live/worker.py:121-139 | no key is claimed twice in a run |
| LiveProtocol.ReapedRowIsFinal | fundingpulse/ingestion/live/queries.py:42-56 | a reaped row stays as the reaper wrote it for the rest of the run |
| LiveProtocol.OthersInterfere | fundingpulse/ingestion/live/queries.py:35-179 | every step of the enqueuer and of the other workers in a reachable state is an interference that this loop allows for |
| LiveProtocol.OneActiveTaskPerExchange | fundingpulse/ingestion/live/enqueuer.py:79-102 | in every reachable state an exchange has at most one pending or running task and no later scheduled row |
| LiveProtocol.ReaperReplaces | fundingpulse/ingestion/live/enqueuer.py:73-115 | with a lease of at least a minute, the tick that reaps a listed exchange's task inserts its replacement under a free key |
| LiveProtocol.ShortLeaseRun | fundingpulse/ingestion/settings.py:57-68 | with a shorter lease a run reaches a claimed, crashed and stale task within its own minute |
| LiveProtocol.ShortLeaseTickReaps | fundingpulse/ingestion/live/enqueuer.py:98-115 | the tick of that state reaps the task, finds its key taken and leaves the exchange without work |
| LiveProtocol.ReplacementIffLeaseCoversMinute | fundingpulse/ingestion/live/dto.py:20-25 | every reap of every reachable state is replaced in its own tick iff lease plus one microsecond covers a minute |
| TaskKeys.DateOf | fundingpulse/time.py:75-77 | the civil date of a day number in years 1 to 9999 exists in the calendar and has that day number |
| TaskKeys.NextMinute | fundingpulse/time.py:75-77 | the calendar counts on from 1970-01-01T00:00 minute by minute, hour by hour, day by day, over the lengths of the months and the leap years |
| TaskKeys.CivilRoundTrip | fundingpulse/time.py:75-77 | every civil minute of the years 1 to 9999 is the reading of its own index |
| TaskKeys.IsoTextLayout | fundingpulse/time.py:75-77 | the text place by place: four digits of the year, two each of month, day, hour and minute, their separators, and `:00Z` |
| TaskKeys.IsoTextInjective | fundingpulse/time.py:75-77 | different civil minutes have different texts, all of one length |
| TaskKeys.CivilOfInjective | fundingpulse/time.py:75-87 | different minutes are different civil minutes |
| TaskKeys.KeyTextInjective | fundingpulse/ingestion/live/enqueuer.py:137-139 | a fixed-length suffix determines the exchange whatever characters it contains |
| TaskKeys.TaskKeyInjective | fundingpulse/ingestion/live/enqueuer.py:137-139 | two scheduled tasks have the same key text iff they have the same exchange and minute |
| HistoryStore.InsertAllMeaning | fundingpulse/tracker/queries/funding_points.py:34-57 | nothing stored changes, exactly the new timestamps are added, each with its first rate in the batch |
| HistoryStore.InsertedIsGrowth | fundingpulse/tracker/queries/funding_points.py:53-57 | the returned rows are the growth of the table, with duplicates inside and against the batch |
| HistoryStore.FirstRateIsFirst | fundingpulse/tracker/queries/funding_points.py:34-57 | the rate stored for a new timestamp is that of the first point of the batch with it |
| HistoryStore.InsertAllOfConcatenation | fundingpulse/tracker/queries/funding_points.py:34-57 | inserting one batch after another is inserting them together |
| HistoryStore.CommitMeaning | fundingpulse/tracker/orchestration/historical_persistence.py:26-59 | a commit, timestamp by timestamp and bound by bound: it adds exactly the batch's timestamps, changes no stored rate, keeps the flag, and leaves bounds that enclose the old ones and the batch and are one of them |
| HistoryStore.CommitKeepsExact | fundingpulse/tracker/orchestration/historical_persistence.py:35-59 | a batch keeps the bounds equal to the extremes of the stored timestamps |
| HistoryStore.CommitOrderIrrelevant | fundingpulse/tracker/queries/contract_history_state.py:33-60 | two batches leave the same timestamps, bounds and flag in either order, and the same rates if they agree |
| HistoryStore.InsertOrderIrrelevant | fundingpulse/tracker/queries/funding_points.py:34-57 | two inserts store the same timestamps in either order, and the same rates if they agree |
| HistoryStore.HistoryTable.CreateMissingState | fundingpulse/tracker/queries/contract_history_state.py:17-30 | a missing checkpoint is created unsynced without bounds, an existing one is left alone |
| HistoryStore.HistoryTable.InsertPoints | fundingpulse/tracker/queries/funding_points.py:34-57 | first writer wins and the counted rows are the growth of the table |
| HistoryStore.HistoryTable.UpdateBounds | fundingpulse/tracker/queries/contract_history_state.py:33-60 | bounds are widened by least and greatest with nulls ignored; a missing row is an error that changes nothing |
| HistoryStore.HistoryTable.MarkHistorySynced | fundingpulse/tracker/queries/contract_history_state.py:63-88 | the flag is set iff the row exists and both bounds are set; otherwise nothing changes |
| HistoryStore.HistoryTable.PersistBatch | fundingpulse/tracker/orchestration/historical_persistence.py:26-59 | points and bounds are committed together; an empty batch or missing row is an error that leaves both untouched |
| HistoryStore.BatchBounds | fundingpulse/tracker/orchestration/historical_persistence.py:35-41 | bounds of the batch that enclose all its timestamps and are among them |
| HistoryProtocol.StepKeepsSound | fundingpulse/tracker/orchestration/historical_persistence.py:35-59 | for any adapter, every step keeps the checkpoint exact, only adds, and counts what it adds |
| HistoryProtocol.CheckpointExactAndConserved | fundingpulse/tracker/orchestration/historical_persistence.py:26-59 | between any two instants of any interleaving: bounds exact, flag never with a null bound, no rate overwritten, counted rows equal the growth |
| HistoryProtocol.CommitBefore | fundingpulse/tracker/orchestration/history_backfill.py:236-256 | a complete backward answer joined to the stored range leaves a gap-free range whose next request is anchored at its oldest point |
| HistoryProtocol.CommitAfter | fundingpulse/tracker/orchestration/history_update.py:207-218 | a complete forward answer joined to the stored range leaves a gap-free range |
| HistoryProtocol.StepKeepsInv | fundingpulse/tracker/orchestration/history_backfill.py:226-276 | every step of every job keeps the stored range gap-free and every job in flight anchored in it |
| HistoryProtocol.GapFreeHistory | fundingpulse/tracker/orchestration/history_update.py:246-252 | from existing bounds, every committed state of every interleaving stores exactly the exchange's points between the bounds |
| HistoryProtocol.MarkingIsComplete | fundingpulse/tracker/orchestration/history_backfill.py:238-250 | the step that sets the flag finds every exchange point up to `newest` stored |
| HistoryProtocol.SyncMeansComplete | fundingpulse/tracker/orchestration/history_backfill.py:238-270 | when gaps stay within the window, the flag implies in every state that every exchange point up to `newest` is stored |
| HistoryProtocol.ExhaustionIffGapsWithinStep | fundingpulse/tracker/exchanges/base.py:101-115 | an empty window proves exhaustion for every settled point iff no gap exceeds the window plus one second |
| HistoryProtocol.CommitGapFreeIff | fundingpulse/tracker/orchestration/historical_persistence.py:26-59 | a commit keeps a history gap-free iff no exchange point lies between its window and the stored range |
| HistoryFromNull.WholeHoursAreSafe | fundingpulse/tracker/orchestration/history_update.py:246-252 | settlements on whole hours have no trap |
| HistoryFromNull.TwoHoursApartAreSafe | fundingpulse/tracker/orchestration/history_update.py:246-252 | nor have settlements at least two timeouts apart, at any second |
| HistoryFromNull.WindowsMeet | fundingpulse/tracker/orchestration/history_update.py:246-252 | without a trap no exchange point lies between the first committed window and any window another timely job has asked or can ask for |
| HistoryFromNull.FirstCommit | fundingpulse/tracker/orchestration/history_backfill.py:226-256 | the first commit leaves a gap-free range that every job in flight continues |
| HistoryFromNull.LateCommit | fundingpulse/tracker/orchestration/historical_persistence.py:26-59 | a batch fetched without bounds and committed after others joins the stored range without a gap |
| HistoryFromNull.StepKeepsSettled | fundingpulse/tracker/orchestration/history_backfill.py:91-270 | every timely step of every job keeps that |
| HistoryFromNull.GapFreeFromNull | fundingpulse/tracker/orchestration/history_update.py:150-252 | from nothing, on a timeline without a trap and with jobs within their timeout, every interleaving is gap-free at every instant and the flag means completeness |
| HistoryTrap.TrapCatches | fundingpulse/tracker/orchestration/history_backfill.py:91-256 | every trap is stepped into by a timely, faithful run of one backfill and one update that leaves a gap |
| HistoryTrap.GapFreeIffTrapFree | fundingpulse/tracker/orchestration/history_update.py:150-252 | every timely run from nothing is gap-free at every instant iff the timeline has no trap |
| HistoryFromNull.GapFreeWhenUncontested | fundingpulse/tracker/orchestration/history_backfill.py:226-276 | with settlements at any second and jobs at any pace, the same when no job starts beside another while nothing is stored |
| HistoryFromNull.OffHourSettlementMayBeMissed | fundingpulse/tracker/orchestration/history_update.py:246-252 | such a run at the scheduled minutes of both jobs, with the trap that its half-hourly settlement makes |
| HistoryBackfill.AnswerCommits | fundingpulse/tracker/orchestration/historical_persistence.py:26-59 | whatever its order and repetitions, a complete answer leaves the state determined by its set of timestamps |
| HistoryBackfill.MeasureDrops | fundingpulse/tracker/orchestration/history_backfill.py:236-256 | the number of exchange points at or before the request bound falls with every non-empty answer |
| HistoryBackfill.FetchWindow | fundingpulse/tracker/exchanges/base.py:91-127 | an answer with exactly the visible settled points of a window |
| HistoryBackfill.FetchHistoryBefore | fundingpulse/tracker/exchanges/base.py:101-115 | the default backward window: `fetchStep` up to the bound, or up to now without one |
| HistoryBackfill.PersistTurn | fundingpulse/tracker/orchestration/history_backfill.py:252-256 | persisting an answer leaves less work of the same result, from the bound one second before its oldest point |
| HistoryBackfill.BackfillContract | fundingpulse/tracker/orchestration/history_backfill.py:193-276 | the loop ends in the state `Final`, having stored what its answers held, all of it the exchange's; it reports how much it fetched, the growth of the table, and a backfill iff it set the flag, which for an unsynced contract it does iff anything is stored |
| HistoryBackfill.SyncedIsLeftAlone | fundingpulse/tracker/orchestration/history_backfill.py:193-270 | a synced contract is left as it is |
| HistoryBackfill.WalkEnds | fundingpulse/tracker/orchestration/history_backfill.py:226-250 | with no visible settlement in the window that ends a second before the oldest stored point, or at the clock, a run only sets the flag, and only if bounds are stored |
| HistoryBackfill.WalkGoesOn | fundingpulse/tracker/orchestration/history_backfill.py:226-276 | otherwise it stores exactly the visible settlements of that window, moves `oldest` to one of them, widens `newest` at most, and ends as a run from there |
| HistoryBackfill.LateCutIsNoCut | fundingpulse/tracker/orchestration/history_backfill.py:226-276 | a cut after more transactions than there are settlements at or before the first bound is no cut |
| HistoryBackfill.CheckpointIsLoopState | fundingpulse/tracker/orchestration/history_backfill.py:273-276 | the bound a restart derives from the checkpoint is the bound the loop would have gone on with |
| HistoryBackfill.ClockIrrelevant | fundingpulse/tracker/orchestration/history_backfill.py:226-276 | once bounds are stored the result does not depend on the clock of the run |
| HistoryBackfill.CrashEquivalence | fundingpulse/tracker/orchestration/history_backfill.py:226-276 | from stored bounds, at any clocks, any number of cut runs followed by one full run ends like one uninterrupted run |
| HistoryRestart.RestartAfterFirstCommit | fundingpulse/tracker/orchestration/history_backfill.py:226-276 | once an attempt without bounds has committed, any restarts at later clocks end as that attempt would have ended |
| HistoryRestart.CrashFromNullBounds | fundingpulse/tracker/orchestration/history_backfill.py:226-276 | cut attempts from nothing in time order and a final run end like one run at the clock of the first attempt that commits |
| HistoryRestart.BottomConfluent | fundingpulse/tracker/orchestration/history_backfill.py:236-256 | every settlement the backward walk could go through leads to the same end |
| HistoryRestart.FinalFromNothing | fundingpulse/tracker/orchestration/history_backfill.py:226-276 | a whole run from nothing stores exactly the settlements from the end of its walk to the newest of its first window |
| HistoryRestart.ClocksAgreeIff | fundingpulse/tracker/orchestration/history_backfill.py:273-276 | two clocks give the same history iff their first windows have the same newest settlement or are both empty |
| HistoryRestart.CrashEquivalentIff | fundingpulse/tracker/orchestration/history_backfill.py:226-276 | crash equivalence without bounds holds iff the deciding clock and the uninterrupted run's clock start from the same settlement |
| HistoryRestart.LateRestartMayFindNothing | fundingpulse/tracker/exchanges/base.py:101-115 | a cut attempt and a restart after the only settlement has left the window, where it fails |
| HistoryBackfill.BackfillAddsAllOlder | fundingpulse/tracker/orchestration/history_backfill.py:226-270 | with gaps within the window a run adds exactly every older exchange point, moves `oldest` to the first and sets the flag |
| HistoryUpdate.UpdateContract | fundingpulse/tracker/orchestration/history_update.py:199-231 | skipped iff less than an interval has passed since a second after `newest`; otherwise it inserts exactly the points from then to now, or from a second before the hour without bounds, and reports how many it fetched and stored |
| HistoryUpdate.DueContractIsUpdated | fundingpulse/tracker/orchestration/history_update.py:199-252 | timestamp by timestamp: a due contract gets exactly the settlements from a second after `newest` to now, with their rates, and `newest` moves to the last of them |
| HistoryUpdate.NewContractIsUpdated | fundingpulse/tracker/orchestration/history_update.py:246-252 | a contract without bounds gets exactly those from a second before the hour of its start |
| HistoryUpdate.FreshContractIsLeftAlone | fundingpulse/tracker/orchestration/history_update.py:234-243 | a fresh contract is left as it is |
| HistoryUpdate.UpdateReachesNow | fundingpulse/tracker/orchestration/history_update.py:199-252 | an update of a due gap-free history keeps it gap-free and exact, and makes it complete from its oldest point to now |
| HistoryUpdate.FreshSkipsAtMostTheDueSecond | fundingpulse/tracker/orchestration/history_update.py:234-243 | a skipped contract has an unseen settlement only if it is the one exactly due and less than a second old |
| FundingDifferences.ProcessedFilterMeaning | fundingpulse/api/queries/funding_sql_composer.py:6-21 | a processed filter selects a value iff the user's list does or it is the compared section |
| FundingDifferences.PairsOfMeaning | fundingpulse/api/queries/funding_sql_composer.py:110-137 | the pairs are exactly the pairs of one asset that meet the pairing condition, without repetition, with the larger interval |
| FundingDifferences.PairContents | fundingpulse/api/queries/funding_sql_composer.py:83-137 | the pairs written out: two contracts of one asset with the larger of their intervals, the lower id on the left, or the compared section on the left and another on the right |
| FundingDifferences.PairedExactlyOnce | fundingpulse/api/queries/funding_sql_composer.py:83-91 | two contracts are paired at most once and in one order only |
| FundingDifferences.DistinctWindowsMeaning | fundingpulse/api/queries/funding_sql_composer.py:224-236 | the windows are exactly the aligned windows of the pairs' intervals, each once |
| FundingDifferences.WindowIsAligned | fundingpulse/api/queries/funding_sql_composer.py:224-236 | both ends of a window are whole intervals from 2000-01-03, each at or before the end of the request and less than an interval before it |
| FundingDifferences.DirectMeaning | fundingpulse/api/queries/funding_sql_composer.py:238-256 | a direct sum is additive over records, and a record counts iff it is the contract's and lies in the window widened by the buffer at its start |
| FundingDifferences.GroupSumIsShared | fundingpulse/api/queries/funding_sql_composer.py:238-256 | a group's sum is the contract's direct sum over the window times the number of intervals that share it |
| FundingDifferences.TotalsAreSharedDirectSums | fundingpulse/api/queries/funding_sql_composer.py:218-290 | one row per pair, whose totals are the direct sums over its own window times that number |
| FundingDifferences.RowContents | fundingpulse/api/queries/funding_sql_composer.py:218-290 | each result row, written out: the row of its pair, the order of that pair, and its aligned window |
| FundingDifferences.SharedOnceIffAlignedApart | fundingpulse/api/queries/funding_sql_composer.py:224-256 | every window is counted once iff no two distinct intervals align to one window |
| FundingDifferences.SharedAggregationCorrect | fundingpulse/api/queries/funding_sql_composer.py:218-290 | then the shared form equals summing each contract's records directly over each pair's window |
| FundingDifferences.TotalRightIff | fundingpulse/api/queries/funding_sql_composer.py:238-290 | a single total is right iff its window is not shared or its direct sum is zero |
| FundingDifferences.DifferenceRightIff | fundingpulse/api/queries/funding_sql_composer.py:269-276 | a difference is right iff its window is not shared or the direct sums are equal |
| FundingDifferences.SharedFormExactIff | fundingpulse/api/queries/funding_sql_composer.py:218-290 | all totals, and all differences, are direct on every set of records iff no two distinct intervals share a window that can hold a record |
| FundingDifferences.WholeDaysAreMiscounted | fundingpulse/api/queries/funding_sql_composer.py:218-290 | over any whole days with any buffer that leaves the window open, intervals 4 and 8 share a window and a payment of 1.0 is misreported |
| Paradex.GroupByHour | fundingpulse/tracker/exchanges/paradex.py:277-288 | the groups are exactly the non-empty hours with their rates in record order |
| Paradex.AggregateToHourly | fundingpulse/tracker/exchanges/paradex.py:261-302 | grouping, sorting and averaging give one averaged point per hour in time order |
| Paradex.OnePointPerHour | fundingpulse/tracker/exchanges/paradex.py:290-302 | strictly increasing hour ends, exactly one per non-empty hour, each with its hour's average |
| Paradex.AggregationConserves | fundingpulse/tracker/exchanges/paradex.py:277-302 | the count-weighted sum of eight times the emitted rates is the sum of the raw rates |
| Paradex.OrderIrrelevant | fundingpulse/tracker/exchanges/paradex.py:277-302 | any order of the same records gives the same points |
| Paradex.SumMeaning | fundingpulse/tracker/exchanges/paradex.py:290-302 | a sum of rates is additive and that of one rate is the rate |
| Paradex.RateOfOneRecord | fundingpulse/tracker/exchanges/paradex.py:277-288 | a record counts for the hour it lies in and for no other |
| Paradex.LiveCache.Store | fundingpulse/tracker/exchanges/paradex.py:346-356 | a live rate is appended under its own hour and no other entry changes |
| Paradex.LiveCache.Pop | fundingpulse/tracker/exchanges/paradex.py:190-259 | an entry is returned and removed and no other changes |
| Paradex.LiveCache.FetchHour | fundingpulse/tracker/exchanges/paradex.py:190-259 | an hour comes from the cache iff enough rates are cached, else from the API or its error, and its entry is gone either way |
| Paradex.LiveCache.FetchHours | fundingpulse/tracker/exchanges/paradex.py:208-259 | the hours of a range in order up to the first whose request raises; exactly the entries of the visited hours are gone |
| Paradex.LiveCache.FetchHistoryAfter | fundingpulse/tracker/exchanges/paradex.py:164-259 | the points of the hours from that of `after` to that of now, or an error iff a request it needs raises; exactly the entries of the visited hours are gone |
| Paradex.OwnHourIffConfined | fundingpulse/tracker/exchanges/paradex.py:215-259 | an API answer yields no point but its own hour's iff its records lie in the hour |
| Paradex.CacheRefinesApi | fundingpulse/tracker/exchanges/paradex.py:190-259 | the cached path gives the API path's point when it holds that hour's rates in any order |
| Paradex.FetchAfterIncreasing | fundingpulse/tracker/exchanges/paradex.py:190-259 | with confined answers at most one point per hour of the range, strictly increasing |
| Paradex.HourIsReported | fundingpulse/tracker/exchanges/paradex.py:190-302 | with confined answers a visited hour has a point iff at least fifty rates are cached for it or the API has records of it; the point stands at the end of the hour and carries the mean of those cached rates, or else of the records', over eight |
| Paradex.OnlyVisitedHours | fundingpulse/tracker/exchanges/paradex.py:164-259 | every point is that of a visited hour |
| Paradex.OutcomeMeaning | fundingpulse/tracker/exchanges/paradex.py:208-259 | a fetch gives its points iff no visited hour needs a request that raises |
| Paradex.TakenOutMeaning | fundingpulse/tracker/exchanges/paradex.py:190-259 | a fetch leaves of the cache, entry by entry, all but the contract's visited hours |
| Registry.FeedByKey | fundingpulse/tracker/orchestration/contract_registry.py:219-229 | an error iff the feed repeats a key, and it names a repeated one; else the map in which each listing is found under its key |
| Registry.FeedRepeats | fundingpulse/tracker/orchestration/contract_registry.py:219-229 | a key repeats iff two listings share asset and quote |
| Registry.AddedMeaning | fundingpulse/tracker/orchestration/contract_registry.py:184-216 | the listings to add are exactly those without a row in the section |
| Registry.ContractTable.InsertAdded | fundingpulse/tracker/orchestration/contract_registry.py:248-262 | one new row per added listing under the new ids, every old id kept |
| Registry.ContractTable.SetDeprecated | fundingpulse/tracker/orchestration/contract_registry.py:264-269 | exactly the given rows change, and only their flag |
| Registry.ContractTable.SetIntervals | fundingpulse/tracker/orchestration/contract_registry.py:270-273 | exactly the given rows change, and only their interval |
| Registry.ContractTable.ApplyPlan | fundingpulse/tracker/orchestration/contract_registry.py:248-273 | the statements in sequence leave the specified table |
| Registry.ContractTable.RegisterContracts | fundingpulse/tracker/orchestration/contract_registry.py:117-170 | an empty feed changes nothing, a repeated key is an error that changes nothing, else the plan is applied and signalled iff it has changes |
| Registry.RunRows | fundingpulse/tracker/orchestration/contract_registry.py:184-273 | no id or row is lost, other sections are untouched, kept rows follow the feed, new rows are the missing listings, one each |
| Registry.RunRow | fundingpulse/tracker/orchestration/contract_registry.py:184-273 | a row of the section that the feed lists becomes active with the feed's interval, any other row of it deprecated, and rows of other sections stay |
| Registry.RunKeepsUnique | fundingpulse/tracker/orchestration/contract_registry.py:248-273 | a run keeps (asset, section, quote) unique |
| Registry.RunPublishesFeed | fundingpulse/tracker/orchestration/contract_registry.py:184-216 | after a run the active keys and intervals of the section are exactly the feed |
| Registry.RunReachesFixedPoint | fundingpulse/tracker/orchestration/contract_registry.py:184-216 | reconciling again with the same feed plans nothing |
| Registry.HasChangesIffProjectionChanges | fundingpulse/migrations/versions/003_contract_enriched.py:34-51 | a plan has changes iff applying it changes the rows of non-deprecated contracts |
| Registry.RunProjectsFeed | fundingpulse/migrations/versions/003_contract_enriched.py:34-51 | after a run the view would show exactly the feed for the section, and for every other section its contracts that are not deprecated, unchanged |
| ViewRefresh.MaterializedViewRefresher.SignalContractsChanged | fundingpulse/tracker/materialized_view_refresher.py:21-24 | a signal is recorded with its time |
| ViewRefresh.MaterializedViewRefresher.CheckAndRefreshIfNeeded | fundingpulse/tracker/materialized_view_refresher.py:26-47 | a refresh is attempted iff a signal is pending and the debounce has elapsed; which is when the run model enables the start of one; only success clears it |
| ViewRefresh.MethodsAreSteps | fundingpulse/tracker/materialized_view_refresher.py:21-54 | the methods are steps of the run model: a signal is one; an undisturbed check starts under the same guard and leaves the view of the active contracts and a cleared signal, or everything as it was when the refresh fails |
| ViewRefresh.ViewAgreement | fundingpulse/tracker/orchestration/contract_registry.py:139-158 | in runs without a signal between a snapshot and the end of its refresh the view equals the projection whenever nothing is pending or unsignalled |
| ViewRefresh.FailureKeepsSignal | fundingpulse/tracker/materialized_view_refresher.py:33-44 | in every run a failed refresh keeps view and signal, and the next check is due iff the debounce has elapsed since the last signal |
| ViewRefresh.StillDue | fundingpulse/tracker/materialized_view_refresher.py:26-44 | it is due at once when no signal came during the refresh |
| ViewRefresh.NoRefreshBeforeDebounce | fundingpulse/tracker/materialized_view_refresher.py:28-33 | in every run a refresh starts only when the debounce has elapsed since every earlier signal |
| ViewRefresh.SnapshotOf | fundingpulse/tracker/materialized_view_refresher.py:49-54 | a refresh that has its snapshot holds the projection of that very step |
| ViewRefresh.FinishedViewIffUnchanged | fundingpulse/tracker/materialized_view_refresher.py:33-36 | in any run a finished refresh leaves nothing pending, and the view is current iff the projection is that of its snapshot |
| ViewRefresh.FinishedViewIsCurrent | fundingpulse/tracker/orchestration/contract_registry.py:139-158 | no plan with changes between snapshot and end suffices, whatever was signalled |
| ViewRefresh.LostSignalRun | fundingpulse/tracker/materialized_view_refresher.py:34-36 | for any two first listings, a run that ends with nothing pending or unsignalled and a view that is not current |
| SmartView.BucketsNest | fundingpulse/migrations/versions/004_continuous_aggregates.py:56-100 | the 60, 15 and 5 minute buckets of an instant nest |
| SmartView.LayersByAge | fundingpulse/migrations/versions/005_smart_view.py:40-82 | the layers in seconds: up to three hours by the age of the instant, then up to three, seven and thirty days by the ages of its 5, 15 and 60 minute buckets |
| SmartView.ShownIffHourWithinSpan | fundingpulse/migrations/versions/005_smart_view.py:40-82 | an instant up to now is shown iff its hour starts within thirty days |
| SmartView.Coverage | fundingpulse/migrations/versions/005_smart_view.py:40-82 | every instant from thirty days less an hour ago to now is shown by one layer or two |
| SmartView.TwiceIffStraddling | fundingpulse/migrations/versions/005_smart_view.py:40-82 | by two iff it lies after a boundary inside the older layer's bucket that straddles it |
| SmartView.StraddledBucketIsTheBoundarys | fundingpulse/migrations/versions/005_smart_view.py:40-82 | there is at most one such bucket per boundary, and none when the boundary is aligned |
| Backpack.AfterLimitCountsSettled | fundingpulse/tracker/exchanges/backpack.py:97-106 | the forward limit is the number of settled times in (after, now] iff after's phase is not ahead of now's, else one short |
| Backpack.FetchAfterMisses | fundingpulse/tracker/exchanges/backpack.py:91-123 | the forward fetch keeps exactly those settled times, but for the oldest one when the limit is short |
| Backpack.UpdateMissesOnlyInFirstSecond | fundingpulse/tracker/orchestration/history_update.py:246-252 | asked by the update job, it misses only the next settlement, and only in the first second of an interval |
| Backpack.BeforeSkipsNothing | fundingpulse/tracker/exchanges/backpack.py:59-72 | the backward request starts at the newest settled time not after the bound or at the one above it |
| Backpack.BeforeWindow | fundingpulse/tracker/exchanges/backpack.py:64-80 | the backward request names exactly the consecutive settlements downwards from there, as many as the fetch step holds |
| Backpack.FutureBoundSkipsNothing | fundingpulse/tracker/exchanges/backpack.py:59-72 | with a bound ahead of the clock it starts no later than the newest settled time |
| Backpack.ExhaustedRequestRepeatsFirst | fundingpulse/tracker/exchanges/backpack.py:59-89 | a request before the first settled time returns that very record, except in the last second of an interval |
| QueryState.ParseIntOfText | frontend/app/funding-arbitrage/_lib/query-state.ts:35-51 | printed integers are parsed back |
| QueryState.ParseIntMeaning | frontend/app/funding-arbitrage/_lib/query-state.ts:45-48 | any text is read as blanks, a sign, its longest run of digits and an ignored rest, and as no number without digits |
| QueryState.DecimalValueMeaning | frontend/app/funding-arbitrage/_lib/query-state.ts:45 | digits are read in base ten |
| QueryState.NoLeadingZero | frontend/app/funding-arbitrage/_lib/query-state.ts:141-145 | a printed positive number has only digits and no leading zero |
| QueryState.PeriodRoundTrip | frontend/app/funding-arbitrage/_lib/query-state.ts:53-83 | a period survives printing and parsing iff it is one the parser can produce |
| QueryState.UnlistedPresetIffInherited | frontend/app/funding-arbitrage/_lib/query-state.ts:58-65 | a text is read as a preset the page does not offer iff it is an inherited property name |
| QueryState.NonEmptyMeaning | frontend/app/funding-arbitrage/_lib/query-state.ts:93-95 | filtering leaves no empty text, and changes nothing iff there was none |
| QueryState.ParsedLists | frontend/app/funding-arbitrage/_lib/query-state.ts:93-95 | for arbitrary parameters each list holds exactly the non-empty values of its own name |
| QueryState.ParsedTexts | frontend/app/funding-arbitrage/_lib/query-state.ts:88-102 | the compared section, the normalization and the minimum difference, read from the first parameter of their names |
| QueryState.ParsedPeriod | frontend/app/funding-arbitrage/_lib/query-state.ts:53-74 | a period is a preset iff the text is one of the seven listed or an inherited name, and custom iff it is two dates with an underscore between |
| QueryState.ParsedNumbers | frontend/app/funding-arbitrage/_lib/query-state.ts:35-51 | offset and limit: a text that starts with a number is moved into 0 to 2^53 - 1 and 1 to 100, any other gives 0 and 20 |
| QueryState.AbsentMeansDefault | frontend/app/funding-arbitrage/_lib/query-state.ts:85-106 | an absent parameter leaves its default whatever the others are |
| QueryState.SerializeFilters | frontend/app/funding-arbitrage/_lib/query-state.ts:108-149 | the loops and guarded `set` calls build the parameters of the filter name by name |
| QueryState.PrintedParameters | frontend/app/funding-arbitrage/_lib/query-state.ts:108-149 | a parameter is printed iff it is a value of the lists, or a compared section, period, normalization, minimum difference, offset or limit that is not the default |
| QueryState.SetNewParamAppends | frontend/app/funding-arbitrage/_lib/query-state.ts:123-146 | `set` on a name not yet present appends it |
| QueryState.GetAllOfEntry | frontend/app/funding-arbitrage/_lib/query-state.ts:108-149 | each name's values are read back whole and in order |
| QueryState.RoundTripIffCanonical | frontend/app/funding-arbitrage/_lib/query-state.ts:85-149 | parsing the printed filter gives it back iff it is canonical |
| QueryState.ParsedIsCanonical | frontend/app/funding-arbitrage/_lib/query-state.ts:85-106 | whatever the query string, the parsed filter is canonical |
| QueryState.NormalisationIsIdempotent | frontend/app/funding-arbitrage/_lib/query-state.ts:85-149 | printing the parsed filter is idempotent on arbitrary parameters and changes no filter |
| QueryState.BareUrlIffDefault | frontend/app/funding-arbitrage/_lib/query-state.ts:22-33 | a canonical filter prints to no parameter at all iff it is the default one |
| ChartSeries.LastRateMeaning | frontend/app/contract-analysis/_lib/chart-data.ts:17-28 | the value at a time is null iff the series has no point there, else that of its last point there |
| ChartSeries.PointMap | frontend/app/contract-analysis/_lib/chart-data.ts:18-20 | the map holds the last point's value for exactly the series' timestamps |
| ChartSeries.AlignFundingSeries | frontend/app/contract-analysis/_lib/chart-data.ts:5-31 | the axis and one column per series, read off that map |
| ChartSeries.ColumnEntry | frontend/app/contract-analysis/_lib/chart-data.ts:17-28 | an entry of a column is null without a point of the series at its time, else a hundred times the rate of the last one |
| ChartSeries.AxisHoldsPoints | frontend/app/contract-analysis/_lib/chart-data.ts:6-14 | a time is on the axis iff a point of some series has it |
| ChartSeries.AxisIsUnion | frontend/app/contract-analysis/_lib/chart-data.ts:6-14 | the axis is strictly increasing and holds exactly the timestamps of the series |
| ChartSeries.LatestNonNullIndices | frontend/app/contract-analysis/_lib/chart-data.ts:33-51 | for each column the index of its last value, null iff it has none |
| ChartSeries.SpreadIsDifferenceOnShared | frontend/app/contract-analysis/_components/charts/FundingChart.tsx:923-947 | the spread series is strictly increasing, has exactly the shared timestamps, and left minus right at each |

## Left out

- Other exchange adapters, HTTP, websockets, retries and JSON fields: an adapter is the window contract above.
- SQL engine internals: a transaction is one step with the documented effect of `ON CONFLICT DO NOTHING`, row updates and `SKIP LOCKED`.
- APScheduler, asyncio, logging, settings, CLI, API routing: no state of their own; a cancelled execution is the crash step.
- The `pipeline` column of `ingestion_task`: only the live funding pipeline exists.
- Worker identities: unique among the workers alive at one time.
- LiveQueue.TaskTable.GetNextPending: the collation of key texts is a parameter, one place per key.
- Live funding points written while a task is collected: only the task row is modelled.
- The fan-out of both history jobs over contracts and their progress counters: the jobs of different contracts never touch the same rows.
- HistoryProtocol.GapFreeHistory: starts from existing bounds; `HistoryFromNull` has the runs from null bounds.
- HistoryTrap.GapFreeIffTrapFree: assumes a fetch step of at least two hours; the smallest of any adapter is six.
- HistoryProtocol.SyncMeansComplete: assumes gaps within the window, which is the exact condition for an empty answer to mean exhaustion.
- Rounding of rates and of `timestamp()` conversions: reals and integers.
- Ordering, limit, offset and minimum difference of the differences query, and the market data queries: only add selections on the rows proved about.
- Averages, refresh policies and retention behind `lfp_smart`: only which layers show an instant.
- Paradex `fetch_history_before`, and live rates stored while a fetch waits for the API: `FetchHistoryAfter` is one uninterrupted call.
- Backpack's `_fetch_history`, and Backpack as an adapter of the backfill theorems: its answers may hold a record newer than the bound.
- Quotes, assets and sections upserted before a registry run, and the checkpoint repair after it: rows the reconciliation does not read.
- A process restart between a registry commit and its refresh, which forgets the pending flag: the run model has one process.
- Percent encoding of the URL, and period labels, which are a function of the period.
- Numbers in the URL: `minDiff` text is a pair of functions assumed to read back what they print; integers beyond 10^21, which print in exponent form, are printed in full here.
- React components, mouse interaction, themes and generated types.
