# Verified model of the chain indexer and its reconcilers

The indexer reads the event logs of three contracts (the monthly payroll, an ERC-20 token, an escrow), stores them in
PostgreSQL and projects the payroll events into employers, employees, fundings and claims. Each stream keeps a
checkpoint. Reconcilers compare the chain with the tables and keep a shared table of exceptions, which are opened when
something differs and resolved when it no longer does. This project models these protocols in Dafny 4.11 and proves what
holds over all their runs. `dafny verify dfyconfig.toml` checks everything.

## How the model is built

- The chain is a fixed list of logs with unique (transaction, index) keys, ordered by block where a result needs it. Logs at
  or below the safe head do not change; the safe head only grows.
- The database is a set of maps, and every SQL statement is one operation on them. A statement can fail at any point, and
  a foreign key can reject it. The payroll stream commits statement by statement; token and escrow windows commit in one
  transaction.
- Any number of workers is interleaved, step by step, with crashes and retries anywhere. Results about runs are stated for
  every reachable state.
- Failures, RPC answers and the order of map iteration are parameters or arbitrary choices. Methods keep the form of the
  program (classes with fields, loops, early returns) and are proved against functions, and the theorems are about those
  functions.

## The files

| file | contents |
|---|---|
| Words, Evm, Text | machine words, identifiers, text formats |
| Ranges, Retry, MetadataPool | block ranges, the retry loop, the metadata worker pool |
| PayrollTables, PayrollStore, PayrollHistory, ReplayConvergence, ClaimErrors | the payroll statements, the methods that issue them, what they leave in each row, replay, swallowed errors |
| PayrollIndexer, SoloIndexer, PayrollWorkers, PayrollProjection | the payroll service, one interrupted worker, many interleaved workers, and when their employer and employee rows can be trusted |
| TokenStream, TokenIndexer, EscrowStream, EscrowIndexer, EscrowDecoders, LiveMonitor | the atomic streams, the two escrow decoders, polling |
| EntityRefs, ExceptionStore, ExceptionLifecycle, SharedTable, ExceptionHistory | exception references, the table, a pass, many reconcilers at once, histories of passes |
| LogReconciler, PassReadings, ReconcileCursor, FalseAlarms | the reconcilers of fundings, claims and transfers, what they report and resolve, their sweep, and why they raise no false alarm |
| Ledger, TokenAudit, BalanceReconciler, BalanceAlarms, StateAudit | balances, the audit of the token tables, the balance reconciler, what its balance and state audits report |

## Where the code falls short of what it says

Each of these is a lemma with an exact condition, or a run that exists for every input.

- The comment in `indexer/internal/persistence/payroll.go:16` calls all writes idempotent. That holds for an ordered batch
  replayed by one worker (ReplayConverges). Over all interleavings the employer and employee rows of caught-up indexers are
  right exactly when at most one worker runs (RowsAreCleanExactlyWhenSolo), and a claim that swallows an error may lose rows
  (SwallowedErrorsAreHarmlessExactlyWhen).
- The backoff is min(initial * factor^k, max) exactly when these are whole nanoseconds (BackoffIsExponentialExactlyWhenWhole).
- An early cancellation does not always make the metadata collector fail: both outcomes are possible exactly when something
  was needed, the context was cancelled early, and no fetch failed (OutcomeIsOpenExactlyWhen).
- A failed block timestamp makes the escrow poller drop a log for good: a log is stored exactly when some committed window
  kept it or the webhook delivered it (StoredExactlyWhen), and every known log can be lost (EveryKnownLogCanBeLost).
- Token and escrow streams never save a checkpoint for block 0; one whose first poll would end there never catches up, and all
  others do after a known number of polls (CatchesUpExactlyAfter).
- A sweep can pass over blocks it never compared, exactly when a call skips its batch (SweepTilesExactlyWhen), as happens when
  the chain grows through the confirmation depth (SafeHeadRegressesExactlyWhen, YoungChainSkipsBlocks).
- Two processes of the same reconciler can open one exception twice (OneOpenExceptionExactlyWhenExclusive). The balance
  reconciler closes only one of them, so its audit is exact exactly when no agreeing entity has two
  (AuditIsExactExactlyWhen).
- The exceptions of a log reconciler are exact after every history of passes as long as duplicated rows carry their on-chain
  block (ExactAfterEveryHistory); otherwise a duplicate is filed under the wrong block (CanonicalExactlyWhen).
- The balance reconciler audits the start block when there is no token checkpoint (TargetIsHighestAllowed). Its state audit
  compares the newest rows with an older block: it is right exactly when both give the same state
  (StateCheckMatchesExactlyWhen), and at every block it can choose a faithful indexer can look wrong
  (EveryTargetCanRaiseFalseAlarm).
- Block numbers of exceptions pass through a 64-bit float and survive exactly when they are multiples of its spacing
  (BlockSurvivesExactlyWhen).

## Model

| member | source | states |
|---|---|---|
| Ranges.NextRangeIsUnbounded | indexer/internal/indexer/indexer.go:342-357 | For every 64-bit start, head and step the wrapping computation equals min(from + step - 1, head), and there is no range exactly when the start is past the head or the step is 0 |
| Ranges.PartitionTiles | indexer/internal/indexer/indexer.go:342-357 | Asking for the next range again and again ends, and cuts [from, head] into exactly ceil(length / step) adjacent ranges of at most step blocks |
| Ranges.BatchEndIsValidExactlyWithoutOverflow | indexer/internal/indexer/indexer.go:167-172 | The unguarded batch end used by the loops is a valid range end exactly when the sum does not wrap, and then it is the overflow-safe one; a wrapped sum is refused, never skipped over |
| Ranges.SafeTargetIsHighestFinalBlock | indexer/internal/indexer/live_monitor.go:16-25 | Both formulas for the safe head name the highest final block exactly when the chain is at least as long as the confirmation depth |
| Retry.Retryer.RetryRange | indexer/internal/indexer/retry.go:182-262 | The outcome and the numbers of calls and sleeps are those of the first attempt that is not followed by another one; at most MaxRetries calls and MaxRetries - 1 sleeps; rejection, exhaustion, an interrupted sleep and success each exactly when the last call and what surrounds it say so, a cancellation before a permanent error; the k-th sleep is the k-th backoff |
| Retry.CalmRunIsDecidedByResults | indexer/internal/indexer/retry.go:182-262 | Without cancellations and failing sleeps the range is retried until the first attempt that does not fail transiently: success, rejection or exhaustion exactly as that attempt, or the last one allowed, says |
| Retry.Retryer.constructor | indexer/internal/indexer/retry.go:157-174 | Non-positive settings are replaced so that every policy is usable |
| Retry.BackoffBounds | indexer/internal/indexer/retry.go:246-258 | For a factor of at least 1 the waits never shrink, never fall below the first one, never exceed the cap, and never exceed initial * factor^k |
| Retry.BackoffIsExponentialExactlyWhenWhole | indexer/internal/indexer/retry.go:246-258 | Every wait equals min(initial * factor^k, max) if and only if those values are whole nanoseconds up to the cap; otherwise truncation makes them fall behind |
| Retry.WholeFactorIsExponential | indexer/internal/indexer/retry.go:246-258 | With a whole factor, such as the default 2, the wait is always min(initial * factor^k, max) |
| Retry.FractionalFactorStalls | indexer/internal/indexer/retry.go:246-258 | A concrete policy (factor 1.5, one nanosecond) whose wait never grows |
| Retry.TotalSleepBound | indexer/internal/indexer/retry.go:182-262 | One call of the loop sleeps at most (MaxRetries - 1) * MaxBackoff in all |
| MetadataPool.RunKeepsInv | indexer/internal/indexer/token_indexer.go:287-328 | In every interleaving each needed hash is in exactly one place: queued, in flight, delivered, collected or failed |
| MetadataPool.AtMostThreeFetches | indexer/internal/indexer/token_indexer.go:287-300 | At most three transactions are fetched at a time, and each failed fetch ends its worker, so that at most three fail |
| MetadataPool.SendsNeverBlock | indexer/internal/indexer/token_indexer.go:287-317 | No worker ever blocks on sending a result or an error: the buffers are large enough in every reachable state |
| MetadataPool.CollectorNeverStuck | indexer/internal/indexer/token_indexer.go:319-328 | While the collector waits, some step other than a cancellation is possible: no deadlock |
| MetadataPool.RunsAreFinite | indexer/internal/indexer/token_indexer.go:287-328 | Every run ends after a bounded number of steps |
| MetadataPool.OutcomeIsJustified | indexer/internal/indexer/token_indexer.go:319-328 | Success means that the collected metadata is a permutation of the needed hashes and nothing failed; a fetch error means that a fetch failed; a context error means a cancellation |
| MetadataPool.MaximalRunDecides | indexer/internal/indexer/token_indexer.go:319-328 | When nothing but a cancellation can happen any more, all workers have ended and the collector has decided: success without failures and cancellation, an error if some fetch failed |
| MetadataPool.OutcomeIsOpenExactlyWhen | indexer/internal/indexer/token_indexer.go:319-328 | For every list of needed hashes: with the same early cancellation and failed fetches both an error and a success are possible if and only if something was needed, the context was cancelled before the collector decided, and no fetch failed |
| MetadataPool.OutcomeOfMaximalRun | indexer/internal/indexer/token_indexer.go:319-328 | Every schedule that cannot be continued reports an error if a fetch failed, and a success if none failed and nothing was cancelled before the collector decided or nothing was needed |
| MetadataPool.BothOutcomesAfterCancellation | indexer/internal/indexer/token_indexer.go:319-328 | For every non-empty list a cancellation can be noticed by the collector or missed, with no failed fetch in either case |
| PayrollStore.Postgres.Exec | indexer/internal/persistence/payroll.go:84-443 | One statement commits as a whole, or fails, or is rejected by a foreign key; then the tables are exactly the written ones or the old ones. What the written rows hold is stated column by column in PayrollHistory |
| PayrollStore.Postgres.SaveEmployerAdded | indexer/internal/persistence/payroll.go:84-111 | The upsert that fills added_at only once |
| PayrollStore.Postgres.SaveEmployerRemoved | indexer/internal/persistence/payroll.go:114-144 | The upsert that overwrites the removal columns |
| PayrollStore.Postgres.SaveEmployeeAdded | indexer/internal/persistence/payroll.go:147-218 | Two ordered statements: the employer if absent, then the employee overwritten with the salary, allocation and employer of the event (PayrollHistory.EmployeesReadOffTheHistory) |
| PayrollStore.Postgres.SaveEmployeeRemoved | indexer/internal/persistence/payroll.go:221-279 | Two ordered statements; an existing employee keeps its employer |
| PayrollStore.Postgres.SavePayrollFunded | indexer/internal/persistence/payroll.go:282-361 | Three ordered statements; each runs only if the previous one succeeded |
| PayrollStore.Postgres.SaveSalaryClaimed | indexer/internal/persistence/payroll.go:364-448 | The existence check, both placeholders and the withdrawal update swallow their errors; only the claim insert reports one: success means that it did not fail and that the claim was stored before or its employee is |
| PayrollTables.ClaimInsertDecides | indexer/internal/persistence/payroll.go:364-448 | The same for the claim's statement list under every combination of failures, with the claim row that is written |
| PayrollStore.Postgres.ProjectPayrollEvent | indexer/internal/persistence/payroll.go:17-81 | The tables and the reported error are those of the event's ordered statement list under arbitrary failures; the columns these lists leave are read off the events in PayrollHistory |
| PayrollStore.Postgres.SaveCheckpoint | indexer/internal/persistence/checkpoints.go:74-110 | A plain overwrite: nothing keeps a checkpoint from moving backwards |
| PayrollHistory.EmployeesReadOffTheHistory | indexer/internal/persistence/payroll.go:147-448 | Over every decodable history, read off the events alone: salary, allocation and employer are those of the last addition, with defaults from the first event that needed the row; the state, the first addition's date, the last removal's and withdrawal's dates and the latest transaction are those of the events that set them; a row exists exactly when some event mentions the employee |
| PayrollHistory.EmployersReadOffTheHistory | indexer/internal/persistence/payroll.go:84-168 | The same for employers, which are also created by the events of their employees and, as the zero address, by the first claim of an unknown employee |
| PayrollHistory.LogRowsReadOffTheHistory | indexer/internal/persistence/chain_events.go:14-83 | A raw event keeps the event and block of the first log with its key and takes flag and timestamp from the last; a funding or claim holds the parties, amounts, block and time of the first unremoved one; a transaction has its last receipt |
| PayrollHistory.SoloTablesReadOffTheHistory | indexer/internal/indexer/indexer.go:106-335 | All of this for the tables of every caught-up run of a single interrupted worker |
| PayrollHistory.IndexedTablesReadOffTheHistory | indexer/internal/indexer/indexer.go:247-340 | And for one successful attempt of IndexRange |
| PayrollTables.HandleProgram | indexer/internal/indexer/indexer.go:290-335 | A log is stored as transaction, then raw event, then projection; a removed log is not projected |
| PayrollTables.InRangeSplit | indexer/internal/indexer/indexer.go:247-275 | Two adjacent filter queries over a sorted log list return what one query over the whole range returns |
| ReplayConvergence.EffectKeepsLockstep | indexer/internal/persistence/payroll.go:84-443 | One statement run by both passes keeps the relation that makes a replay converge, for all fourteen statements |
| ReplayConvergence.RunIsIdempotent | indexer/internal/persistence/payroll.go:16-81 | Running any batch twice gives what running it once gives, from every start state |
| ReplayConvergence.PrefixThenAll | indexer/internal/persistence/payroll.go:16-81 | Any statement-level prefix of a batch followed by the whole batch gives what one clean pass gives |
| ReplayConvergence.ReplayConverges | indexer/internal/indexer/indexer.go:226-244 | Any sequence of crashed attempts at a batch, then the whole batch: employers, employees, fundings, claims, events and transactions are exactly those of one clean pass |
| ReplayConvergence.ProgramsFind | indexer/internal/persistence/payroll.go:364-443 | In every batch each withdrawal update finds its employee, which the previous results need |
| ClaimErrors.ClaimIsHandled | indexer/internal/persistence/payroll.go:364-448 | The claim as written equals its statement list under the rules for swallowed errors |
| ClaimErrors.SaveClaimWithoutFaults | indexer/internal/persistence/payroll.go:364-448 | Without failures the claim equals its statement list run cleanly |
| ClaimErrors.SwallowedErrorsAreHarmlessExactlyWhen | indexer/internal/persistence/payroll.go:374-440 | A claim with swallowed errors ends as a clean one if and only if a condition on the failed statements and the previous rows holds |
| SoloIndexer.SoloWorkerConverges | indexer/internal/indexer/indexer.go:136-222 | A worker seen as a series of attempts, each complete or cut off after any statement, with any batch sizes: once its checkpoint has caught up with everything it attempted, the tables are the clean projection of the logs up to the checkpoint |
| PayrollIndexer.CrashedAttemptIsPrefix | indexer/internal/indexer/indexer.go:247-340 | An attempt at a window that only crashes leaves a prefix of the window's statements; without failures it succeeds exactly when every log can be decoded |
| PayrollIndexer.AttemptSucceedsExactlyWhen | indexer/internal/indexer/indexer.go:247-340 | No attempt succeeds unless every log was decoded, its transaction fetched, and the timestamp of each new block fetched with the block's first log; if no statement fails these conditions are enough |
| PayrollIndexer.IndexLogsKeeps | indexer/internal/indexer/indexer.go:247-340 | Whatever fails, an attempt loses no row, stores only genuine rows, keeps every foreign key, and stores the whole window when it reports success |
| PayrollIndexer.Service.IndexRange | indexer/internal/indexer/indexer.go:247-340 | The loop with its timestamp cache has exactly the specified effect and result |
| PayrollIndexer.Service.IndexLog | indexer/internal/indexer/indexer.go:290-335 | One decoded log: the statements, their order and the first error |
| PayrollIndexer.Service.IndexRangeWithRetry | indexer/internal/indexer/indexer.go:226-244 | However the attempts go, the tables stay sound; success means the window is covered, and one attempt in which nothing fails is enough for a window that can be decoded |
| PayrollIndexer.Service.IndexWindow | indexer/internal/indexer/indexer.go:181-212 | The checkpoint moves only after the whole window is stored, and only to its end; it does when nothing fails in some attempt and afterwards and every log can be decoded |
| PayrollIndexer.Service.RunBackfill | indexer/internal/indexer/indexer.go:136-222 | It goes on at the block after the checkpoint, or at the configured start, in whole batches of which only the last is cut at the target, and keeps everything up to the checkpoint stored; it touches no other stream, reaches the target on success and reports the last finished window on failure (one below the start, wrapped, before the first); it succeeds when nothing fails, every log can be decoded and no batch end wraps |
| PayrollWorkers.PerformKeepsInv | indexer/internal/indexer/indexer.go:106-335 | Every single statement, failure, retry and checkpoint of any number of interleaved workers keeps the invariant |
| PayrollWorkers.Coverage | indexer/internal/indexer/indexer.go:106-216 | In every reachable state each log between the start block and the checkpoint is stored under its key, field by field: event, block, time, parties and amounts; although the checkpoint may move backwards |
| PayrollWorkers.RowsAreExact | indexer/internal/persistence/payroll.go:282-443 | A stored event, funding or claim holds, field by field, the values of the one log with its key and nothing else |
| PayrollWorkers.CheckpointIsSafe | indexer/internal/indexer/live_monitor.go:241-324 | The checkpoint never passes the safe head, never lies below the start, and never passes a log that cannot be decoded |
| PayrollWorkers.ReferentialIntegrity | indexer/internal/persistence/payroll.go:154-168 | After every statement of every run all foreign keys hold, and no statement is rejected by one unless an error of the same claim was swallowed before |
| PayrollWorkers.RunIsLater | indexer/internal/persistence/payroll.go:84-443 | Rows never disappear and fundings and claims never change, whatever happens next |
| PayrollProjection.RowsAreCleanExactlyWhenSolo | indexer/internal/indexer/indexer.go:106-216 | Over all event histories and all interleavings of n workers without ignored errors, caught-up employer and employee rows are those of one clean pass, if and only if n is at most 1 |
| PayrollProjection.SoloTablesAreClean | indexer/internal/indexer/indexer.go:106-335 | One worker of the interleaved machine, with any failures that are not ignored, retries, stops and window sizes: whenever it has caught up, all its tables are those of one clean pass up to the safe head |
| PayrollProjection.StepKeepsSoloInv | indexer/internal/indexer/indexer.go:106-335 | Every step of a single worker leaves it in a window of which it has run exactly a statement prefix, from tables out of which replaying the window gives the clean pass |
| PayrollProjection.WorkersCanLeaveStaleRows | indexer/internal/indexer/indexer.go:106-216 | For every number of workers from two on and every employer: a run without a failed statement in which a removed employer is active, past the checkpoint, with nobody left to replay the removal |
| PayrollProjection.FinishesWindow | indexer/internal/indexer/indexer.go:286-335 | Any worker anywhere in a decodable window, among any others that stand still, can run the rest of it, with exactly the effect of the remaining statements |
| PayrollProjection.SoloReachesHead | indexer/internal/indexer/indexer.go:136-222 | A single worker that never fails does reach the clean projection of every decodable history |
| Text.DecimalInjective | indexer/internal/reconciliation/payroll_worker.go:374-374 | Different numbers have different decimal renderings |
| Text.DecimalReads | indexer/internal/reconciliation/payroll_worker.go:374-374 | A minus sign for negative numbers, then digits that read back as the number |
| Text.HexOfInjective | indexer/internal/reconciliation/payroll_worker.go:374-374 | Different byte strings have different hexadecimal renderings |
| Text.HexOfReads | indexer/internal/reconciliation/payroll_worker.go:374-374 | Two lower-case digits a byte, the high one first |
| Text.JoinInjective | indexer/internal/reconciliation/payroll_worker.go:374-374 | Colon-joined fields can be told apart |
| EntityRefs.RefInjective | indexer/internal/reconciliation/balance_worker.go:590-594 | No two different entities, of the same or of different reconcilers, share a reference |
| EntityRefs.PayrollLogText | indexer/internal/reconciliation/payroll_worker.go:374-374 | The texts of funding and claim references, kind by kind |
| EntityRefs.TransferLogText | indexer/internal/reconciliation/token_transfer_worker.go:326-326 | The texts of transfer references |
| EntityRefs.BalanceText | indexer/internal/reconciliation/balance_worker.go:590-594 | The texts of balance and state references |
| EntityRefs.ChainPrefixSelects | indexer/internal/reconciliation/payroll_worker.go:520-521 | The chain prefix selects exactly the references of that chain |
| EntityRefs.TokenPrefixSelects | indexer/internal/reconciliation/token_transfer_worker.go:464-465 | The token prefix selects, among the transfer references, exactly those of that chain and token |
| ExceptionStore.ReconciliationRepository.CreateException | indexer/internal/repository/reconciliation_repo.go:177-225 | Appends one row or changes nothing |
| ExceptionStore.ReconciliationRepository.GetOpenExceptionByEntityRef | indexer/internal/repository/reconciliation_repo.go:228-279 | Finds the newest open exception with a reference, and none exactly when none is open |
| ExceptionStore.ReconciliationRepository.ResolveException | indexer/internal/repository/reconciliation_repo.go:282-294 | Closes one open row; closing a closed one changes nothing |
| ExceptionStore.ReconciliationRepository.GetOpenExceptionsByEntityRefPrefix | indexer/internal/repository/reconciliation_repo.go:297-355 | The ids selected by a prefix, in ascending order |
| ExceptionStore.OpenByPrefixMembers | indexer/internal/repository/reconciliation_repo.go:297-355 | The prefix query returns exactly the open rows with the prefix, in ascending order |
| ExceptionLifecycle.RecordAllFacts | indexer/internal/reconciliation/payroll_worker.go:324-368 | Recording opens every detected reference, appends only own rows, changes no old row, and never opens a reference twice |
| ExceptionLifecycle.OpenAfterRecording | indexer/internal/reconciliation/payroll_worker.go:324-368 | A reference is open after recording exactly when it was open or was detected |
| ExceptionLifecycle.PassIsSound | indexer/internal/reconciliation/payroll_worker.go:321-558 | After a pass every detected reference is open and no other exception of the reconciler is open in the range |
| ExceptionLifecycle.PassIsExactExactlyWhen | indexer/internal/reconciliation/payroll_worker.go:321-558 | For any table, references opened twice included: the open references in the range are exactly the detected ones if and only if each detected one that was already open was open in the range |
| ExceptionLifecycle.PassIsExact | indexer/internal/reconciliation/payroll_worker.go:321-558 | The condition holds when every exception and every mismatch carries its on-chain block; then the open references in the range are exactly the detected ones |
| ExceptionLifecycle.PassKeepsCanonical | indexer/internal/reconciliation/payroll_worker.go:321-558 | A pass whose mismatches carry their on-chain block keeps the table in the state the previous result needs |
| ExceptionLifecycle.DetectedIsCreatedPlusSkipped | indexer/internal/reconciliation/payroll_worker.go:324-368 | In every pass detected = created + skipped |
| ExceptionLifecycle.PassIsFixpoint | indexer/internal/reconciliation/payroll_worker.go:321-558 | A second pass that detects the same set, in any order, creates nothing, resolves nothing, leaves the table equal and skips every mismatch |
| ExceptionLifecycle.PassIsIsolated | indexer/internal/reconciliation/payroll_worker.go:520-558 | A pass changes only rows of its own types under its own prefix and keeps at most one open exception per reference |
| ExceptionLifecycle.SmallBlocksSurvive | indexer/internal/reconciliation/payroll_worker.go:537-541 | Block numbers below 2^53 survive the trip through a 64-bit float |
| ExceptionLifecycle.BlockSurvivesExactlyWhen | indexer/internal/reconciliation/payroll_worker.go:537-541 | A block number survives the trip if and only if it is a multiple of the distance between floats around it, and it never moves by more than half that distance |
| ExceptionLifecycle.RoundsToNearest | indexer/internal/reconciliation/payroll_worker.go:537-541 | The trip ends at a nearest multiple of the spacing, of two equally near ones at the even one |
| ExceptionLifecycle.SpacingReads | indexer/internal/reconciliation/payroll_worker.go:537-541 | The spacing is the power of two that leaves 53 significant bits, and 1 below 2^53 |
| ExceptionLifecycle.SeenAtItsBlockExactlyWhen | indexer/internal/reconciliation/payroll_worker.go:533-545 | The resolution ranges that see an exception are exactly those that contain its block, if and only if its number survives |
| ExceptionLifecycle.LargeBlocksMayShift | indexer/internal/reconciliation/payroll_worker.go:537-541 | 2^53 + 1 does not survive |
| LogReconciler.DetectsExactlyTheMismatches | indexer/internal/reconciliation/payroll_worker.go:370-517 | What a pass detects is exactly the declared set: duplicate key, missing at or below the checkpoint, different parties, different amounts, different block; PassReadings says for each kind when that is, in terms of logs and rows alone |
| LogReconciler.SecondPassIsIdle | indexer/internal/reconciliation/payroll_worker.go:370-558 | Two passes over the same data detect equally many mismatches in possibly different orders, and the second one leaves the table as it is |
| LogReconciler.FaithfulTablesRaiseNothing | indexer/internal/reconciliation/payroll_worker.go:399-517 | Tables that repeat the chain up to indexing lag raise no mismatch |
| LogReconciler.InterruptedIsIsolated | indexer/internal/reconciliation/payroll_worker.go:321-558 | A pass that fails half-way touches no other reconciler's rows, creates only exceptions for what it has recorded, and opens nothing twice |
| LogReconciler.NoPassHidesAMismatch | indexer/internal/reconciliation/payroll_worker.go:321-561 | Every pass, completed or interrupted anywhere: it closes only own exceptions of the range whose reference no mismatch has, opens only exceptions of mismatches, and each mismatch that was open stays open; a completed one leaves all of them open |
| LogReconciler.ReconciliationIsExactExactlyWhen | indexer/internal/reconciliation/payroll_worker.go:175-561 | For any data and any table, references opened twice included: after a completed pass the open exceptions of the family in the range are exactly the references of the declared mismatch set if and only if each of these that was already open was open in the range |
| ExceptionHistory.ExactAfterEveryHistory | indexer/internal/reconciliation/payroll_worker.go:175-561 | After any history of log and balance passes over a frozen chain, a completed pass leaves open in its range exactly the references of the declared mismatch set, provided each duplicated row carries its on-chain block |
| ExceptionHistory.ExactOverFrozenLogs | indexer/internal/reconciliation/payroll_worker.go:175-561 | The same over the frozen payroll and token logs themselves, for the funding, claim and transfer reconcilers, when the audited table has one row per key |
| ExceptionHistory.CanonicalExactlyWhen | indexer/internal/reconciliation/payroll_worker.go:370-517 | The mismatches that a pass detects all carry their on-chain block if and only if the first row of every duplicated key does |
| ExceptionHistory.HistoryIsCanonical | indexer/internal/reconciliation/payroll_worker.go:175-561 | Along every history of passes from the empty table each log exception carries its on-chain block |
| ExceptionHistory.LogPassContinues | indexer/internal/reconciliation/payroll_worker.go:175-561 | A finished or interrupted pass of a log reconciler continues such a history |
| ExceptionHistory.BalancePassContinues | indexer/internal/reconciliation/balance_worker.go:306-646 | A finished or interrupted pass of the balance reconciler continues such a history |
| LogReconciler.FaithfulPassIsQuiet | indexer/internal/reconciliation/payroll_worker.go:175-561 | Over tables that repeat the chain up to lag, a pass opens nothing and closes only own stale exceptions, even when interrupted; a completed one reports zero detected, created and skipped and closes every stale one |
| LogReconciler.Audit.RecordMismatch | indexer/internal/reconciliation/payroll_worker.go:324-368 | One mismatch: skipped when open, created otherwise, with its counters |
| LogReconciler.Audit.CompareRecord | indexer/internal/reconciliation/payroll_worker.go:400-517 | One log against the rows of its key: missing, lagging, or up to three differences, in order; when each of them is, is PassReadings |
| LogReconciler.Audit.RecordDuplicates | indexer/internal/reconciliation/payroll_worker.go:370-397 | Every duplicated key once, in an arbitrary map order |
| LogReconciler.Reconciler.GroupByKey | indexer/internal/reconciliation/token_transfer_worker.go:252-261 | The map from keys to their rows in query order, removed rows left out |
| LogReconciler.Reconciler.DecodeLogs | indexer/internal/reconciliation/token_transfer_worker.go:200-238 | The decodable logs of the family that were not removed, in order |
| LogReconciler.Reconciler.ResolveFixed | indexer/internal/reconciliation/payroll_worker.go:519-558 | The resolution loop closes exactly the stale exceptions and counts them; an interrupted one closes only stale ones |
| LogReconciler.Reconciler.ReconcileRange | indexer/internal/reconciliation/payroll_worker.go:175-561 | The whole pass: invalid range, unfinalized range (returned with its end unclamped), read errors that touch nothing, and otherwise the specified pass with its report, whose content PassReadings reads off the logs and rows; an interrupted one has failed at the exception table and has closed nothing unless all mismatches were recorded |
| LogReconciler.Reconciler.AuditRange | indexer/internal/reconciliation/salary_claim_worker.go:181-476 | The same pass once its inputs are read; one algorithm for fundings, claims and transfers, told apart in PassReadings |
| PassReadings.CompletedCallReads | indexer/internal/reconciliation/payroll_worker.go:175-236 | The range a completed call compares, its safe head, and that its report counts exactly the mismatches, each of which is open afterwards |
| PassReadings.MissingIsReportedExactlyWhen | indexer/internal/reconciliation/payroll_worker.go:400-422 | After a completed call a missing row is reported, and its exception open, if and only if the node answered its log, no unremoved row has the key, and both the safe head and a stored checkpoint have reached its block |
| PassReadings.DifferenceIsReportedExactlyWhen | indexer/internal/reconciliation/payroll_worker.go:425-517 | Different parties, a different or unreadable amount, and a different block are reported exactly when the first unremoved row of the log's key has them |
| PassReadings.DuplicateIsReportedExactlyWhen | indexer/internal/reconciliation/payroll_worker.go:370-397 | A duplicate is reported exactly when two unremoved rows have the key, under the block of the first |
| PassReadings.CompletedCallChangesExactly | indexer/internal/reconciliation/payroll_worker.go:519-558 | Row by row: the exceptions created are those of reported references that were not open, with the reconciler's type, reference and block; the ones closed are the reconciler's own open ones of the range that were not reported; the report counts both |
| PassReadings.OwnsReads | indexer/internal/reconciliation/payroll_worker.go:520-532 | What a reconciler's own exceptions are: its types, under the text of its chain, for transfers of its token too |
| PassReadings.FundingAnswersRead | indexer/internal/reconciliation/payroll_worker.go:240-295 | The fundings compared are exactly the unremoved PayrollFunded logs of the range, with both parties and three amounts |
| PassReadings.ClaimAnswersRead | indexer/internal/reconciliation/salary_claim_worker.go:181-235 | The claims compared are exactly the unremoved SalaryClaimed logs of the range |
| PassReadings.TransferAnswersRead | indexer/internal/reconciliation/token_transfer_worker.go:200-238 | The transfers compared are exactly the unremoved Transfer logs of the range |
| PassReadings.FundingDifferences | indexer/internal/reconciliation/payroll_worker.go:425-517 | Which columns of a funding row are compared |
| PassReadings.ClaimDifferences | indexer/internal/reconciliation/salary_claim_worker.go:350-432 | Which columns of a claim row are compared |
| PassReadings.TransferDifferences | indexer/internal/reconciliation/token_transfer_worker.go:368-461 | Which columns of a transfer row are compared |
| FalseAlarms.NoFalseFundingAlarm | indexer/internal/reconciliation/payroll_worker.go:399-517 | In every state the payroll indexers can reach, mid-batch states and later row reads included, reconciling fundings from the start block on detects nothing |
| FalseAlarms.FundingPassIsQuiet | indexer/internal/reconciliation/payroll_worker.go:175-561 | Hence the result of such a pass, completed or interrupted: nothing is opened, only stale exceptions are closed, and the report says so |
| FalseAlarms.NoFalseClaimAlarm | indexer/internal/reconciliation/salary_claim_worker.go:334-432 | The same for claims |
| FalseAlarms.ClaimPassIsQuiet | indexer/internal/reconciliation/salary_claim_worker.go:121-476 | The result of such a pass is quiet too |
| TokenAudit.NoFalseTransferAlarm | indexer/internal/reconciliation/token_transfer_worker.go:352-461 | The same for transfers over the token indexers |
| TokenAudit.TransferPassIsQuiet | indexer/internal/reconciliation/token_transfer_worker.go:128-505 | The result of such a pass is quiet too |
| ReconcileCursor.CursorIsMonotoneAndSafe | indexer/internal/reconciliation/payroll_worker.go:593-644 | The cursor never moves backwards, never passes the safe head the call saw, and moves at most one batch |
| ReconcileCursor.SkipsExactlyWhenHeadRegresses | indexer/internal/reconciliation/payroll_worker.go:209-213 | A call moves the cursor over unaudited blocks exactly when its second look at the head finds the safe head below the batch; otherwise it audited exactly the blocks it moved over |
| ReconcileCursor.SafeHeadRegressesExactlyWhen | indexer/internal/reconciliation/payroll_worker.go:195-198 | With a growing head that happens exactly when the chain grows through the confirmation depth between the two looks |
| ReconcileCursor.YoungChainSkipsBlocks | indexer/internal/reconciliation/payroll_worker.go:593-644 | For every depth, start, batch and two heads on either side of the depth, the second safe head below the start: a first call on a growing chain moves the cursor over blocks that nobody compared |
| ReconcileCursor.SweepTilesExactlyWhen | indexer/internal/reconciliation/payroll_worker.go:593-644 | From a fresh cursor, over any sequence of calls, failed ones included: the audited ranges cut [start, cursor] without gap or overlap if and only if no call skips its batch, and otherwise the cursor has passed a block that no call compared |
| ReconcileCursor.SteadyHeadsNeverSkip | indexer/internal/reconciliation/payroll_worker.go:195-198 | No call skips while the head never falls between the two looks of a call and never grows through the confirmation depth there |
| ReconcileCursor.Sweeper.ReconcileNextBatch | indexer/internal/reconciliation/payroll_worker.go:593-644 | One call: its result, table and cursor are determined by the head, the cursor read, the pass over the chosen batch and the save |
| ReconcileCursor.CursorMovesExactly | indexer/internal/reconciliation/payroll_worker.go:593-644 | The exact move of a call: from the block after the cursor, or the start block, to min(from + batch - 1, safe head), with 100 for a batch of 0, cut at the safe head of the second look unless that lies below the batch |
| ReconcileCursor.CursorFollowsPasses | indexer/internal/reconciliation/payroll_worker.go:593-644 | An error leaves the cursor; the cursor moves exactly when the call for its batch succeeded and was saved; over compared blocks that means a whole pass over exactly these blocks; no other reconciler's rows change |
| SharedTable.ScopesAreDisjoint | indexer/internal/reconciliation/payroll_worker.go:527-529 | A reconciler takes a row for its own exactly when it created it |
| SharedTable.OthersLeaveMyRowsAlone | indexer/internal/reconciliation/token_transfer_worker.go:463-502 | Any sequence of passes of the other log reconcilers and of the balance reconciler leaves a log reconciler's rows exactly as they are, adds none of them, and keeps at most one open exception per reference |
| SharedTable.LogPassesLeaveBalanceRowsAlone | indexer/internal/reconciliation/balance_worker.go:582-646 | Any sequence of passes of the log reconcilers leaves every balance and state exception as it is and adds none |
| SharedTable.BalancePassIsIsolated | indexer/internal/reconciliation/balance_worker.go:306-579 | A balance pass changes only rows it has a check for, adds no log exception, and opens nothing twice |
| SharedTable.OneOpenExceptionExactlyWhenExclusive | indexer/internal/reconciliation/payroll_worker.go:328-360 | With check and create as separate statements, every interleaving keeps at most one open exception per reference if and only if no entity is audited by two processes |
| SharedTable.SharedDutyOpensTwice | indexer/internal/reconciliation/payroll_worker.go:328-360 | The four-step run in which two copies of one reconciler open the same reference twice |
| SharedTable.DeployedReconcilersAreExclusive | indexer/internal/reconciliation/balance_worker.go:582-646 | The four deployed reconcilers satisfy the condition |
| Ledger.GroupedIsSingle | indexer/internal/repository/tokens_repo.go:373-419 | The grouped sum of an address is the balance of the single-address query |
| Ledger.BalanceOneMore | indexer/internal/repository/tokens_repo.go:341-370 | One row more: a transfer of the queried chain and token up to the queried block, not removed, adds its amount to the recipient and takes it from the sender; any other row changes nothing |
| Ledger.CalculateAllTokenBalances | indexer/internal/repository/tokens_repo.go:373-419 | The map filled from the result rows gives every non-zero address its balance, 0 when absent, and has no zero address |
| Ledger.LedgerAgrees | indexer/internal/repository/tokens_repo.go:341-370 | The single-address query equals the replay of the Transfer events (EIP-20, section "Events", Transfer) |
| Ledger.TotalIsMintedMinusBurned | indexer/internal/repository/tokens_repo.go:373-419 | All reported balances together are what was minted minus what was burned |
| Ledger.BalanceIgnoresOrder | indexer/internal/repository/tokens_repo.go:341-370 | The order of the rows does not matter |
| Ledger.SelfTransferIsNeutral | indexer/internal/repository/tokens_repo.go:341-370 | A transfer to oneself changes no balance |
| Ledger.BalanceDependsOnCountedRows | indexer/internal/repository/tokens_repo.go:352-360 | Rows of another token, later blocks and removed rows do not matter |
| TokenAudit.BalancesMatchTheChain | indexer/internal/repository/tokens_repo.go:341-419 | For every block at or below the token checkpoint the balance computed from the tables, now or later, is the one a replay of all Transfer events of the chain gives |
| TokenAudit.BalancesReadOffTheChain | indexer/internal/repository/tokens_repo.go:341-370 | Up to the checkpoint the balance computed from the tables, now or later, is the sum of the unremoved Transfer events of the chain to the wallet minus those from it |
| TokenStream.CommitFacts | indexer/internal/persistence/token_transfers.go:98-293 | The transaction of a window is never rejected, stores every log of the window and keeps every row genuine |
| TokenStream.CommitReads | indexer/internal/indexer/token_indexer.go:209-285 | In every reachable state a commit saves the end of the window as checkpoint, except block 0, stores every log of it, and gives every transaction that was missing the receipt the node answers |
| TokenStream.SavedEventReads | indexer/internal/persistence/token_transfers.go:167-213 | A saved batch, row by row: a raw event has event and block of the stored row, or of the first log with its key, and flag and timestamp of the last |
| TokenStream.SavedTransferReads | indexer/internal/persistence/token_transfers.go:215-257 | The same for transfer rows: sender, recipient, amount and block once, flag and timestamp from the last Transfer log |
| TokenStream.PerformKeepsInv | indexer/internal/indexer/token_indexer.go:127-374 | Every step of any number of interleaved token workers keeps the invariant and loses no row |
| TokenStream.Coverage | indexer/internal/indexer/token_indexer.go:127-374 | In every reachable state each log between the start block and the checkpoint is stored field by field: event, block, time and removed flag of the raw row, and sender, recipient, amount, block, time and flag of the transfer row |
| TokenStream.RowsAreExact | indexer/internal/persistence/token_transfers.go:214-257 | A stored raw event or transfer holds, field by field, the values of the one log with its key |
| TokenStream.ReferentialIntegrity | indexer/internal/indexer/token_indexer.go:269-285 | Every raw event has its transaction; a window is never rolled back for a missing one, although the fetched ones were chosen from an older state |
| TokenIndexer.Postgres.SaveTokenBatch | indexer/internal/persistence/token_transfers.go:98-293 | All or nothing over four tables; the checkpoint is not written for block 0 |
| TokenIndexer.Postgres.GetExistingTxHashes | indexer/internal/persistence/transactions.go:81-110 | The asked hashes that are stored |
| TokenIndexer.TokenIndexer.IndexRange | indexer/internal/indexer/token_indexer.go:127-374 | One attempt either changes nothing or has fetched all logs, timestamps, missing transactions and the header and commits exactly the specified transaction, after which each log of the window is in the tables with its event, block, time, flag, parties and amount, and its transaction with its receipt; it touches no other stream, and succeeds when nothing fails and every log can be decoded |
| TokenIndexer.CommittedWindowIsIndexed | indexer/internal/persistence/token_transfers.go:98-293 | What a committed window leaves, field by field for every log, transaction and untouched row |
| TokenIndexer.TokenIndexer.FetchTimestamps | indexer/internal/indexer/token_indexer.go:195-207 | Succeeds exactly when the timestamp of every block in the batch can be fetched |
| TokenIndexer.TokenIndexer.DecodeLogs | indexer/internal/indexer/token_indexer.go:209-266 | One raw event per log and one transfer per Transfer log, in order; fails exactly when some log cannot be decoded; the fields of the rows are those of CommittedWindowIsIndexed |
| TokenIndexer.TokenIndexer.FetchMetadata | indexer/internal/indexer/token_indexer.go:280-328 | Each missing transaction, in an arbitrary order; fails exactly when some fetch fails |
| TokenIndexer.PoolRefinesFetchMetadata | indexer/internal/indexer/token_indexer.go:287-328 | The worker pool refines it: in every schedule a finished pool delivers each needed transaction once, and a schedule that cannot be continued, without an early cancellation, succeeds exactly when no fetch fails |
| TokenIndexer.DeliveredIsFetched | indexer/internal/persistence/token_transfers.go:119-165 | The order in which transactions arrive does not matter for what is stored |
| LiveMonitor.PollClosedForm | indexer/internal/indexer/live_monitor.go:193-384 | Every poll: the checkpoint is the end of the last finished batch, and the poll ends at the safe head, at the batch limit, at the first failing batch, or where the batch end would wrap |
| LiveMonitor.PollMovesExactly | indexer/internal/indexer/live_monitor.go:193-384 | A poll without failures goes on after the checkpoint, or begins at the configured block, below which token and escrow streams never go, and saves min(safe head, that block - 1 + batch * maxBatches); block 0 is saved by the payroll stream only |
| LiveMonitor.CleanPoll | indexer/internal/indexer/live_monitor.go:193-384 | A poll without failures moves the checkpoint to exactly min(safe, from - 1 + batch * limit), except that token and escrow streams never save block 0 |
| LiveMonitor.StuckAtBlockZero | indexer/internal/indexer/live_monitor.go:327-384 | The exception matters: such a stream polled one block at a time from block 0 never gets anywhere |
| LiveMonitor.CatchesUpExactlyAfter | indexer/internal/indexer/live_monitor.go:193-384 | Polls without failures, each starting where the last checkpoint says, under a fixed head with something left to index: after n of them the checkpoint is the safe head if and only if n is at least ceil(gap / (batch * limit)), and the stream is not a token or escrow stream whose first poll would end at block 0 |
| LiveMonitor.CleanPollsClosedForm | indexer/internal/indexer/live_monitor.go:193-384 | The checkpoint after n such polls is min(safe, start - 1 + n * batch * limit), and stays what it was for such a stream |
| LiveMonitor.Monitor.Poll | indexer/internal/indexer/live_monitor.go:241-324 | The loop of one stream has the specified outcome and touches no other stream |
| LiveMonitor.Monitor.PollOnce | indexer/internal/indexer/live_monitor.go:149-190 | Each enabled stream is polled whatever happens to the others; without a head nothing changes |
| EscrowDecoders.HexNumberIsBigEndian | indexer/internal/api/handlers/webhook.go:358-367 | The value of hexadecimal digits, in either case, is the big-endian value of the bytes they spell |
| EscrowDecoders.ParseOfRendering | indexer/internal/api/handlers/webhook.go:358-367 | The webhook parses the text of any non-empty bytes to their big-endian value |
| EscrowDecoders.FromHexOfRendering | indexer/internal/api/handlers/webhook.go:251-256 | The webhook gets back the bytes of any hexadecimal text |
| EscrowDecoders.DecodersAgree | indexer/internal/api/handlers/webhook.go:219-338 | For every log, any topic count, data length and digit case: the webhook decodes the text of a known event to what the poller decodes from the bytes, and any other log to an unknown event |
| EscrowDecoders.DecodeLog | indexer/internal/indexer/escrow_indexer.go:283-397 | The poller's step-by-step decoder gives the declared meaning, and rejects exactly the logs without one of the six topics; each field is where the event puts it |
| EscrowDecoders.DecodeAlchemyLog | indexer/internal/api/handlers/webhook.go:219-338 | The webhook's step-by-step decoder gives the declared meaning of any payload, malformed ones included, and a known event exactly for its topic, each field where the event puts it |
| EscrowDecoders.EventByTopicReads | indexer/internal/abi/escrow_abi.go:79-84 | Each of the six 32-byte topics, written out in hexadecimal, names its own event, and no other topic is known |
| EscrowDecoders.MeaningReads | indexer/internal/indexer/escrow_indexer.go:283-397 | The poller's side, per event and field: topic 1 is the id, topics 2 and 3 are buyer and seller, winner, or the one who raised the dispute, and the first data word is the amount, the released amount, the delivery time or the dispute fee; no other entry |
| EscrowDecoders.TextMeaningReads | indexer/internal/api/handlers/webhook.go:219-338 | The same for the webhook's side of any payload |
| EscrowDecoders.UnknownReads | indexer/internal/api/handlers/webhook.go:219-338 | A payload without a known topic has no event, no amount and at most the id entry |
| EscrowDecoders.AddressReads | indexer/internal/indexer/escrow_indexer.go:319-374 | An address is the last twenty bytes of its topic |
| EscrowDecoders.BigEndianInjective | indexer/internal/abi/escrow_abi.go:79-84 | A topic is determined by its number |
| EscrowStream.DeliveryKeepsGenuine | indexer/internal/repository/escrow_events_repo.go:27-79 | A webhook delivery leaves what the poller would have stored, whichever came first |
| EscrowStream.PerformKeepsInv | indexer/internal/indexer/escrow_indexer.go:118-209 | Every step of any number of pollers and webhook deliveries keeps every row genuine and every block up to the checkpoint stored, except for known logs that a committed window passed over |
| EscrowStream.StoredExactlyWhen | indexer/internal/indexer/escrow_indexer.go:143-171 | Over every run: a log is stored if and only if some committed window kept it or the webhook delivered it; a known log between the start and the checkpoint that is not stored was in a committed window that passed over it |
| EscrowStream.StoredRowsAreExact | indexer/internal/persistence/escrow_events.go:77-165 | Every stored row holds exactly what its log means, with its block and removed flag, whether the poller or the webhook wrote it |
| EscrowStream.SaveReads | indexer/internal/persistence/escrow_events.go:77-165 | A repeated save keeps the block of the stored row and takes everything else from the new one |
| EscrowStream.KnownReads | indexer/internal/indexer/escrow_indexer.go:128-171 | The poller keeps exactly the logs with one of the six topics |
| EscrowStream.CoverageWithoutFailedTimestamps | indexer/internal/indexer/escrow_indexer.go:118-209 | A run in which no committed window passes over a known log stores every known log between the start and the checkpoint with its values |
| EscrowStream.EveryKnownLogCanBeLost | indexer/internal/indexer/escrow_indexer.go:143-155 | For every chain and every known log of it from the start block on, one failed timestamp is enough to lose it: the checkpoint has passed the log and it is not stored |
| EscrowIndexer.Indexer.IndexRange | indexer/internal/indexer/escrow_indexer.go:118-171 | One attempt changes nothing, or has fetched logs and header and commits the window without the logs it passed over, together with the checkpoint |
| EscrowIndexer.Indexer.DecodeLogs | indexer/internal/indexer/escrow_indexer.go:128-156 | A timestamp is requested, in order, for each known log whose block has none yet, and the logs passed over are exactly those whose request failed; once a block has a timestamp none of its later logs is passed over |
| EscrowIndexer.Indexer.SaveEscrowBatch | indexer/internal/persistence/escrow_events.go:77-165 | All or nothing; the checkpoint is not written for block 0 |
| BalanceReconciler.TargetIsHighestAllowed | indexer/internal/reconciliation/balance_worker.go:145-205 | The audited block is the highest one that is requested, final, indexed and not below the start; only without a token checkpoint is it the never indexed start block |
| BalanceReconciler.AuditIsExactExactlyWhen | indexer/internal/reconciliation/balance_worker.go:306-393 | For any table: after a pass without errors of the exception table each checked entity has an open exception exactly when its two sides differ, if and only if no entity whose sides agree had two open exceptions before |
| BalanceReconciler.AuditIsExact | indexer/internal/reconciliation/balance_worker.go:306-393 | The corollary for tables without two open exceptions of one reference: exact, and still none afterwards |
| BalanceReconciler.CompletePassIsExactExactlyWhen | indexer/internal/reconciliation/balance_worker.go:145-228 | The same if-and-only-if for a whole pass over addresses, contract and states on any table; every other reference stays as it was |
| BalanceReconciler.CompletePassReads | indexer/internal/reconciliation/balance_worker.go:145-228 | What that says: every listed address, the contract, and every employer and employee row has an open exception exactly when the node's answer differs from the table's |
| BalanceReconciler.NoPassHidesADifference | indexer/internal/reconciliation/balance_worker.go:145-228 | Every pass, completed or ended by a failing query or table: it closes only exceptions whose two sides were found to agree, opens only those found to differ, leaves each exception as it is whose sides differ, and touches only the references of the configured checks |
| BalanceReconciler.ApplyFacts | indexer/internal/reconciliation/balance_worker.go:780-803 | One check: its reference is open afterwards exactly when the sides differ or two exceptions were open, and nothing else changes |
| BalanceReconciler.BalanceCursorIsSafe | indexer/internal/reconciliation/balance_worker.go:258-298 | The balance cursor moves forward only, by at most one batch, never past the safe head or the token checkpoint |
| BalanceReconciler.Audit.Resolve | indexer/internal/reconciliation/balance_worker.go:780-803 | A swallowed error can leave an exception open; nothing else changes |
| BalanceReconciler.Audit.RecordMismatch | indexer/internal/reconciliation/balance_worker.go:582-646 | One mismatch: skipped when open, created otherwise; an error ends the pass |
| BalanceReconciler.Reconciler.ReconcileBalances | indexer/internal/reconciliation/balance_worker.go:306-393 | Every listed address except the zero address is checked, until a query or the exception table fails; then the checks made are the first ones, all answered |
| BalanceReconciler.Reconciler.ReconcileContractBalance | indexer/internal/reconciliation/balance_worker.go:396-464 | The contract's balance is checked unless no contract is configured, a query fails or the exception table fails |
| BalanceReconciler.Reconciler.ReconcileStates | indexer/internal/reconciliation/balance_worker.go:467-579 | Every employer or employee row is checked against the contract, until a query or the exception table fails; then the checks made are the first ones, all answered |
| BalanceReconciler.Reconciler.ReconcileTargetBlock | indexer/internal/reconciliation/balance_worker.go:145-228 | The whole pass at the chosen block: skipped, failed without effect, or an audit of the first checks, all of them unless a query or the exception table fails; the report counts agreeing and differing checks and created rows |
| BalanceReconciler.Reconciler.ReconcileNextBatch | indexer/internal/reconciliation/balance_worker.go:258-298 | One step of the balance sweep; a failing one leaves the cursor, and a successful one moves it to min(cursor + batch, safe head, token checkpoint) exactly when that is a new block |
| BalanceReconciler.AuditMovesExactly | indexer/internal/reconciliation/balance_worker.go:258-298 | The exact move of a successful call when the sum does not wrap: it audits and saves min(cursor + batch, safe head, token checkpoint), with 50 for a batch of 0, if that is a new block; otherwise the cursor stays |
| BalanceReconciler.NewExceptionsAreTyped | indexer/internal/reconciliation/balance_worker.go:582-778 | The exceptions a pass opens are typed by what they are about: a wallet's balance, the contract's balance, or a state |
| BalanceAlarms.NoFalseBalanceAlarm | indexer/internal/reconciliation/balance_worker.go:306-464 | With the token checkpoint read in any reachable state and the tables in any later one, no answered balance check at or below the checkpoint differs |
| BalanceAlarms.BalancePassIsQuiet | indexer/internal/reconciliation/balance_worker.go:306-646 | Hence a pass at or below the checkpoint, completed or interrupted, opens no balance exception; a completed one reports only differing states, and nothing when states are not audited |
| BalanceAlarms.BalanceAuditIsQuiet | indexer/internal/reconciliation/balance_worker.go:145-228 | The same for the block the audit chooses itself from the token checkpoint, for every head, depth and request |
| BalanceAlarms.EveryBalanceIsAudited | indexer/internal/repository/tokens_repo.go:278-338 | Every address with a balance in the tables is among the audited ones |
| StateAudit.ProjectedState | indexer/internal/persistence/payroll.go:84-443 | In a clean projection a stored employer or employee is inactive exactly when the last log that decides its state removed it; rows created for a foreign key or a claim are active without such a log |
| StateAudit.StateCheckMatchesExactlyWhen | indexer/internal/reconciliation/balance_worker.go:467-579 | For a clean projection up to any block, any audited block and any stored employer or employee: the check agrees if and only if the row's state, active unless last removed, is that of the last log up to the audited block |
| StateAudit.StateAuditIsRightExactlyWhenUnchanged | indexer/internal/reconciliation/balance_worker.go:467-579 | When logs decide the state on both sides, the check agrees if and only if the last ones are of the same kind |
| StateAudit.QuietAuditIsRightExactlyWhen | indexer/internal/reconciliation/balance_worker.go:467-579 | When no log decides the state between the audited and the indexed block, the check agrees if and only if some log up to the audited block does: a row that nobody added is always a false alarm |
| StateAudit.SoloStateAudit | indexer/internal/reconciliation/balance_worker.go:467-579 | The same condition for the tables of every caught-up run of a single payroll worker |
| StateAudit.EveryTargetCanRaiseFalseAlarm | indexer/internal/reconciliation/balance_worker.go:145-205 | Whatever block the audit chooses, from whatever head, depth, checkpoint and request: there are a history and a run of the payroll indexer without any failure whose correct row is reported as a mismatch |

## Left out

- Phantom rows: a database row without an on-chain event is reported by no reconciler, so nothing is claimed about it.
- Reorganisations: the chain is frozen at and below the safe head, as the confirmation depth is meant to ensure; a removed flag
  is stored as the node reports it.
- TokenIndexer.TokenIndexer.FetchMetadata: no cancellation of its own; a cancelled attempt commits nothing, like a failed one.
- BalanceReconciler.TargetBlock: a balance reconciler without a checkpoint store, which takes the safe head for the token
  checkpoint and keeps no cursor.
- BalanceReconciler.BalanceCursorIsSafe: a cursor plus batch of exactly 2^64 wraps to 0, which requests the newest block.
- LogReconciler.Reconciler.AuditRange: the three log reconcilers are one generic algorithm; the transfer reconciler's extra
  comparison of transaction hashes is left out, because rows are already grouped by that hash; the filters on contract, token
  and topic are part of which logs count as decodable.
- ReconcileRange: the retries around its RPC calls are not repeated; each answer is what the retry loop finally returned.
- ReconcileRecentWindow of all reconcilers: it only chooses a range and calls the modelled pass.
- ReconcileNextBatch: the configurations without a checkpoint store or a stream name, in which the cursor is neither read nor saved.
- The token and escrow backfill loops and ProcessNextBatch: the same loop over windows as the payroll backfill and the polls.
- LiveMonitor.Monitor.Poll: requires a safe head below 2^64 - 1, because the loop variable would wrap there; no chain gets that far.
  Whether a batch succeeds is a flag here; what success and failure of a batch mean is proved for each stream's IndexRange.
- LiveMonitor.CatchesUpExactlyAfter: batch ends do not wrap (safe + batch is at most 2^64); PollClosedForm says what happens otherwise.
- Retry.BackoffBounds: the product of backoff and factor is exact; the rounding of 64-bit floats and the overflow of a 64-bit
  duration for huge factors are not modelled.
- Retry.BackoffIsExponentialExactlyWhenWhole: exact products, as above.
- Retry.WholeFactorIsExponential: exact products, as above.
- PayrollProjection.RowsAreCleanExactlyWhenSolo: runs without ignored errors; what an ignored error does is
  SwallowedErrorsAreHarmlessExactlyWhen.
- StateAudit.StateCheckMatchesExactlyWhen: the node is taken to answer isEmployerActive and isEmployeeActive as the last add or remove log
  up to the audited block says; the payroll contract itself is not part of this model.
- ReconcileCursor.SweepTilesExactlyWhen: heads below 2^64 - 1, because the cursor plus one would wrap there.
- PayrollIndexer.Service.RunBackfill: requires a target below 2^64 - 1 for the same reason.
- PayrollWorkers.Coverage: the state machine counts blocks without bound; the methods carry the 64-bit arithmetic.
- EscrowStream.StoredRowsAreExact: the block timestamp is left out of the row, because the webhook takes it from the payload.
- TokenAudit.BalancesMatchTheChain: needs a token checkpoint and no Transfer event before the start block, as the balance
  reconciler does.
- BalanceAlarms.NoFalseBalanceAlarm: the node is taken to answer balanceOf as a replay of the Transfer events does; the token
  contract itself is not part of this model.
- ABI decoding and keccak: decoders other than the two escrow ones are arbitrary functions from logs to events.
- Classification of RPC errors by their text: an arbitrary split into transient and permanent.
- Casts to signed 64-bit columns: block numbers and log indices are taken to fit.
- Wall-clock columns, severities, log lines, the JSON of expected and observed values except the block number.
- The webhook's signature check, deduplication key, zero-address filter and block number parsing, and the pub/sub messages.
- HTTP handlers, filters, pagination, configuration and migrations: plumbing around the modelled code.
