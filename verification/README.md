# Verified models of the ERP backend

Dafny models of the algorithms and protocols in the backend of an ERP system:
delivery forecasting, recipe cycles and explosion, exact quantities, stock
reservations, long-running operations, the outbox, chat pointers, the audit
chain, snapshot identity, name matching, codecs and working-time clocks. Each
module follows one or two source files; code that updates rows, arrays or maps
is written as methods and classes and proved against specification functions,
and what the program promises is proved about those functions for all inputs
and all runs. `dafny verify dfyconfig.toml` checks everything.

## Modules

| module | subject |
|---|---|
| `Common` | option type, decimal digits, small sequence helpers |
| `CapacityForecast`, `CapacityOptimality`, `CapacityPromise` | packing open orders onto working days, why earliest-deadline packing is optimal, the reported forecast and delivery promise |
| `BomCycle` | depth-first search for a cycle among sub-assemblies |
| `EditDistance` | two-row edit distance and name similarity |
| `SagaCore`, `SagaLaws`, `SagaStore` | long-running operations: transition functions and all runs of several workers; what each event does to the row and what can never follow it; the table and the calls that update it |
| `Outbox` | outbox events under several workers and crashes |
| `SnapshotJson`, `SnapshotReader` | canonical text of a production snapshot; a JSON reader that reads it back |
| `AuditChain`, `AuditText`, `AuditEvidence` | hash chain of the audit log: batch verifier, health check, writer; the text a row hashes; what the last hash of an accepted log proves |
| `DecimalQuantity`, `CeilToThree` | exact decimal quantities, rounding up to thousandths |
| `BomUses`, `BomExplosion` | what production lines draw on and why they are blocked; exploding them into demands |
| `StockReservations`, `PlanBooks`, `PlanLaws`, `PlanRuns` | stock holds of approved plans; all runs of the plan desk; what each call does to every row and plan, and what holds over every run |
| `ChatPointers`, `ChatLaws` | delivered and read pointers and unread counters of a conversation; what each call shows to either side |
| `Base32`, `Csv` | secret encoding and CSV export |
| `WorkingTime` | three loops that measure working time |

## How the program is modelled

- A database transaction is one atomic step. A write that happens after a
  rollback (the failure writes of the saga engine and of the outbox) is a step
  of its own, so that other workers can get in between. Surroundings that the
  code cannot control (whether a step throws, commits, or its task is done) are
  inputs of the step, so a theorem about all runs covers every choice of them.
- The digest of the audit chain is any function from texts to 64 hexadecimal
  digits, and what a row hashes is joined into one text, the previous hash
  included. Results about equal hashes name a clash (two texts with one digest)
  where there is one. A time stamp stands as a text of 24 characters, for the
  years 0 to 9999.
- Methods are proved against specification functions, and what these functions mean
  is proved on the data alone: `SagaLaws`, `PlanLaws`, `PlanRuns`, `ChatLaws`, `BomUses` and
  `SnapshotReader` do not name the transition, selection and printing functions in
  what they promise of a row, a plan, a message, a blocker or a text.
- Thrown errors are `Option`, `Result` or verdict values; nothing the program
  handles is excluded by a precondition.
- Work and capacity are exact reals, quantities are exact integers in
  millionths or thousandths, time is in whole minutes, dates are day numbers.
  `BigInt` division truncates toward zero and is written out as such.
- Some source loops are methods of their own here, so that each proof stays
  small: `CapacityForecast.PlaceOrder`, `BomCycle.Search.FollowEdges`,
  `BomExplosion.ExplodeLine`, `StockReservations.Ledger.SpendTakes` and
  `StockReservations.Ledger.GrantWants`.

## Where the code and its promises part

Each of these is a proved lemma, and beside each promise that fails for some
inputs stands the exact condition under which it holds.

- **Forecast.** With no work day in the horizon no order is ever counted late
  (`CapacityPromise.EmptyHorizonHidesLateness`). An undated order is sorted as
  if due on 9999-12-31, so it can delay an order that carries this very date
  (`CapacityPromise.StandInDateIsNotOptimal`). `CapacityOptimality.OptimalExactly`
  and `CapacityOptimality.EmptyHorizonOptimalExactly` say when packing by
  deadline is optimal, and `CapacityOptimality.LateCountIsExact` what a late
  count of zero means, for every input.
- **Sagas.** The failure write does not look at the row it overwrites. If another
  worker commits in between, a step can run twice
  (`SagaCore.LateFailureWriteRepeatsAStep`), and a saga that was given up can come
  back (`SagaCore.LateFailureWriteReopens`). `SagaCore.LateFailureWriteExactly` says
  which late writes keep the trace, `SagaCore.TraceIsKeptExactly` lifts it to runs,
  `SagaCore.LateFailureWriteFinalExactly` says which leave a finished saga finished,
  and `SagaCore.LateFailureWriteSetsBackExactly` which of those that keep the trace
  do not set the saga back. An error of the failure write is swallowed and its
  status reported all the same: whatever other workers do in between, a reported
  status is that of the row unless the failure write is lost and the row, as the
  others have left it, has another one (`SagaStore.ReportIsTrueExactly`,
  `SagaCore.FailureReportIsTrueExactly`). Where nothing is reported, nothing has
  changed unless a commit was not acknowledged (`SagaStore.SilenceIsTrueExactly`). A
  drain's counts are the sagas its advances ended, less those it missed, plus those
  reported by mistake; a completion is never reported by mistake
  (`SagaStore.CountsExactly`).
- **Outbox.** The guard on the failure write keeps every effect exactly-once, but
  a late write can set the attempt counter back (`Outbox.LateWriteSetsAttemptsBack`),
  which exactly the landings of a stale reading do (`Outbox.OnlyStaleLandingsLower`,
  `Outbox.CounterRisesExactly`). The handler can be tried more often than the
  maximum (`Outbox.TwoWorkersExceedTheLimit`, `Outbox.LostWritesAllowAnyTries`);
  `Outbox.TriesOfEveryRun` gives the number of tries of every run, however it ends,
  and with it when the maximum is kept. The report of a
  landing failure write is true exactly when the event was still pending when it
  landed, or had been given up and is reported so again
  (`Outbox.LandingReportIsTrueExactly`); a rival that has done the work in between
  makes it false (`Outbox.RivalMakesReportFalse`).
- **Audit chain.** The comment at `src/lib/auditChain.ts:111` says that tampering
  and deletion stay detectable under the fork tolerance. Even strict checking does
  not make them so: the previous hash is joined to the fields without a separator,
  and a first row whose action key begins with the previous hash hashes the same
  text without linking to it. So, whatever the digest, every accepted log of two or
  more sealed rows has an accepted log of one row with the same last hash
  (`AuditEvidence.RowsCanBeFoldedAway`), and over all logs the last hash is evidence
  if and only if there is no more than one sealed row
  (`AuditEvidence.UnguardedEvidenceExactly`). A caller can shut this out by checking
  that the joined fields of the first sealed row do not begin with 64 hexadecimal
  digits, which no row with short ids and an ordinary action key does
  (`AuditText.PlainKeyIsGuarded`). Between logs that pass this check the last
  hash fixes what a log has hashed, up to a clash of the digest, if and only if
  there is no tolerance or no sealed row after the first is older than the cutoff
  (`AuditEvidence.TamperEvidentExactly`): in front of an old row another one can be
  inserted unseen (`AuditEvidence.RowCanBeInserted`), and rows that a tolerated fork
  skips can be taken out (`AuditEvidence.ForkHidesRows`). Deletion alone is excluded
  if and only if there is no tolerated fork
  (`AuditEvidence.DeletionEvidentExactly`). The fields are not separated from each
  other either, so a hash does not fix each of them
  (`AuditText.TextDoesNotFixFields`); among the rows of one action it does if and
  only if the action key is not just digits
  (`AuditText.OneActionFieldsExactly`). The health message at
  `src/lib/systemHealth.ts:198` speaks of the newest rows, but the rows scanned are
  the oldest.
- **Quantities.** Rounding a negative product or quotient is to nearest only
  under the condition `DecimalQuantity.RoundsWell`; multiplying -0.000001 by one
  gives zero (`DecimalQuantity.NegativeProductIsLost`). Rounding up to three
  decimals is right for every quantity that is not negative; below zero it is
  right only for whole thousandths from -1 down, and from -0.001 to -0.999 the
  resulting text is unreadable (`CeilToThree.CeilingIsExactly`).
- **Chat.** Closing a conversation clears the staff's unread counter without
  moving the read pointer. This is the only call that can make the counter wrong,
  and it does so exactly when something was unread
  (`ChatPointers.OnlyClosingForgets`), so it is right all along a run if and only if
  the conversation is only closed when read (`ChatPointers.StaffCountExactly`). The
  automatic reply outside working hours is
  shown to the customer and never counted: the customer's counter is the number of
  all shown messages above the read pointer if and only if no such reply lies there
  (`ChatPointers.AutoRepliesExactly`). When the row updates of concurrent posts
  arrive in another order than the message ids, pointers and message statuses can
  move backwards (`ChatPointers.LateUpdateMovesBack`), though read never passes
  delivered; they only advance if and only if the updates come in the order of the
  ids (`ChatPointers.PointersAdvanceExactly`).
- **Working time.** Inbox spans of more than sixty days are cut to their last
  sixty, which loses nothing exactly when each day cut off is the day off, or is
  the first and was over already (`WorkingTime.CutIsHarmlessExactly`).

## Model

| member | source | states |
|---|---|---|
| CapacityForecast.WorkDaysFrom | src/lib/operationsCapacityCore.ts:52-59 | the loop returns the specified day list: work days only, at most 800 calendar days looked at |
| CapacityForecast.WorkDaysAreTheNextOnes | src/lib/operationsCapacityCore.ts:49-59 | the list is strictly ascending, holds only work days of the window, and skips none up to its last day |
| CapacityForecast.WorkDaysCount | src/lib/operationsCapacityCore.ts:52-59 | how many days come back: the number asked for, or all the work days among the 800 when there are fewer |
| CapacityForecast.ByDeadlineSorts | src/lib/operationsCapacityCore.ts:87 | sorting by deadline, undated orders last, is an ordered permutation of the orders |
| CapacityForecast.QueueIsOrdered | src/lib/operationsCapacityCore.ts:87 | earlier deadlines come first, undated orders behind all but those of the last date, and only open work of the input is queued |
| CapacityForecast.QueueIsStable | src/lib/operationsCapacityCore.ts:87 | for each deadline the queue holds the open orders of the input, each once, in the order of the input |
| CapacityForecast.LateOnesAreCounted | src/lib/operationsCapacityCore.ts:110-111 | the late count is the number of queue positions whose work, with all before it, is more than the days up to the deadline hold |
| CapacityForecast.PlaceOrder | src/lib/operationsCapacityCore.ts:92-109 | the inner loop turns the loads of the earlier work into the loads of that work plus this order, reports the day it ends on and exactly what did not fit |
| CapacityForecast.Pack | src/lib/operationsCapacityCore.ts:88-112 | after the whole queue, day loads, spill and late count are those of the closed forms over the queue |
| CapacityOptimality.QueueFeasibility | src/lib/operationsCapacityCore.ts:87 | sorting and dropping finished orders decide nothing about whether some allocation is in time |
| CapacityOptimality.DeliveryIsBounded | src/lib/operationsCapacityCore.ts:91-112 | no allocation whatever delivers more by a date than the work days up to it hold |
| CapacityOptimality.AllocationBeatsNoLateOrder | src/lib/operationsCapacityCore.ts:91-112 | if any allocation finishes everything in time, no order of the queue is late |
| CapacityOptimality.QueueIsAllocation | src/lib/operationsCapacityCore.ts:91-112 | a queue without late orders is itself an allocation within capacity that finishes every dated order in time |
| CapacityOptimality.LateCountIsExact | src/lib/operationsCapacityCore.ts:81-124 | for every input: no order is counted late if and only if the horizon is empty or some allocation is in time, an undated order counting as due on the stand-in date when an order with that date is behind it |
| CapacityOptimality.EarliestDeadlineIsOptimal | src/lib/operationsCapacityCore.ts:81-124 | when no order carries the stand-in date and the horizon has a work day: zero late orders if and only if some day-by-day allocation finishes every dated order in time |
| CapacityOptimality.DatedFeasibility | src/lib/operationsCapacityCore.ts:87 | orders without a date or without work left decide nothing about whether some allocation is in time |
| CapacityOptimality.FeasibleExactly | src/lib/operationsCapacityCore.ts:81-124 | some allocation finishes every dated order in time if and only if the forecast for the dated orders alone counts none late |
| CapacityOptimality.OptimalExactly | src/lib/operationsCapacityCore.ts:81-124 | on a horizon with work days the late count is zero exactly when that is possible, if and only if the dated orders are too much by themselves or those due on the stand-in date fit with everything queued ahead of them |
| CapacityOptimality.EmptyHorizonOptimalExactly | src/lib/operationsCapacityCore.ts:110-111 | without work days that holds if and only if no dated order has work left |
| CapacityPromise.BuildForecast | src/lib/operationsCapacityCore.ts:81-124 | used plus spill is the whole queue, no day is overfilled, work goes to a day or spills only when every earlier day is full, and the late count is the number of queued orders whose work does not fit into the days up to their deadline; it is zero exactly when the dated orders can be in time |
| CapacityPromise.LoadsAddUp | src/lib/operationsCapacityCore.ts:106-115 | the day loads add up to what was packed |
| CapacityPromise.FullBeforeCursor | src/lib/operationsCapacityCore.ts:91-112 | every day before the cursor is full, every day behind it is empty, and nothing spills while the cursor is inside the horizon |
| CapacityPromise.EmptyHorizonHidesLateness | src/lib/operationsCapacityCore.ts:110-111 | with no work day in the horizon an order that cannot be in time is not counted late |
| CapacityPromise.StandInDateIsNotOptimal | src/lib/operationsCapacityCore.ts:87 | an undated order served before one due on the stand-in date makes it late, although serving the dated one first is in time |
| CapacityPromise.FinishDateGrows | src/lib/operationsCapacityCore.ts:136-149 | stretching the work never makes the finishing date earlier |
| CapacityPromise.PromiseIsARange | src/lib/operationsCapacityCore.ts:136-149 | earliest, likely and latest date come in order, and each of the four verdicts is given exactly for the due dates it stands for |
| CapacityPromise.PromisedDatesAreForecastDates | src/lib/operationsCapacityCore.ts:136-149 | the likely date is the day on which the forecast's packing would finish the new order behind the queue, the other two are that for nine and for thirteen tenths of all work |
| BomCycle.SuccessorsAreTheEdges | src/domain/engineering-governance.ts:180-185 | the successor list of a node names exactly the targets of its edges |
| BomCycle.Search.constructor | src/domain/engineering-governance.ts:176-189 | the adjacency map lists the edges, and the search starts with nothing visited |
| BomCycle.Search.Dfs | src/domain/engineering-governance.ts:190-207 | finds a simple cycle reachable from the path's start, or finishes the node and leaves the path as it was; unvisited nodes decrease |
| BomCycle.Search.FollowEdges | src/domain/engineering-governance.ts:194-203 | the loop over the successors: a cycle is reported, or every successor has finished |
| BomCycle.StackClosesCycle | src/domain/engineering-governance.ts:195-198 | the stack from a repeated node on, closed by that node, is a simple cycle reachable from the start |
| BomCycle.WalksGoBack | src/domain/engineering-governance.ts:190-207 | from a finished node every walk goes strictly back in finishing order |
| BomCycle.SettledMeansAcyclic | src/domain/engineering-governance.ts:190-207 | no closed walk is reachable from a finished node |
| BomCycle.DetectBomCycle | src/domain/engineering-governance.ts:176-210 | sound and complete: a returned list is a simple cycle of real edges reachable from the start, and nothing is returned if and only if no closed walk is reachable |
| EditDistance.Levenshtein | src/lib/applicationMatching.ts:46-59 | the two-row table returns the least number of single-character edits |
| EditDistance.DistIsLeastEdits | src/lib/applicationMatching.ts:46-59 | some chain of edits has that many steps and no chain has fewer |
| EditDistance.ChainsAreNoShorter | src/lib/applicationMatching.ts:46-59 | no chain of insertions, deletions and substitutions is shorter than the distance |
| EditDistance.ShortestChain | src/lib/applicationMatching.ts:46-59 | a chain of exactly that many edits, built |
| EditDistance.DistIsSymmetric | src/lib/applicationMatching.ts:46-59 | the distance is symmetric |
| EditDistance.ZeroOnlyOnEqual | src/lib/applicationMatching.ts:46-59 | only equal strings are at distance zero |
| EditDistance.TriangleInequality | src/lib/applicationMatching.ts:46-59 | the distance satisfies the triangle inequality |
| EditDistance.NameSimilarity | src/lib/applicationMatching.ts:62-73 | the score lies in 0..1, is 1 if and only if the normalised names are equal and not empty, and between different names is the larger of the share the least number of edits leaves alone and nine tenths of the share of common words |
| EditDistance.WordsMakeText | src/lib/applicationMatching.ts:68-69 | the words hold no space and make up the name again, one space between each two |
| EditDistance.TextMakesWords | src/lib/applicationMatching.ts:68-69 | and no other words without spaces do |
| EditDistance.SimilarityLaws | src/lib/applicationMatching.ts:62-73 | the score is symmetric, in 0..1, and 1 on equal non-empty names only |
| EditDistance.SimilarityIsLarger | src/lib/applicationMatching.ts:68-72 | for two different names it is the larger of the part of the longer one that the least number of edits leaves alone and nine tenths of the part of the words that both share |
| SagaCore.TransactKeepsTrace | src/lib/sagas.ts:62-110 | every transaction, whatever its surroundings do, keeps the committed effects consistent with the phase of the row |
| SagaCore.OrderlyFailureKeepsTrace | src/lib/sagas.ts:111-121 | so does a failure write on the row it was computed from |
| SagaCore.RunIsSettled | src/lib/sagas.ts:58-122 | every orderly run of any number of workers keeps that consistency |
| SagaCore.SagaTrace | src/lib/sagas.ts:58-122 | every orderly run commits steps 0..m-1 once each in order and on abort undoes them once each in reverse; compensated leaves nothing to undo, failed means nothing ever committed, running means attempts to spare |
| SagaCore.RetryWaits | src/lib/sagaCore.ts:35-75 | after a failure to be retried the row cannot be claimed before 1, 5, 30 or 120 minutes are over |
| SagaLaws.NothingHappens | src/lib/sagas.ts:64-68 | a claim of a saga that is not due or is over changes nothing, nor does one that rolls back without a thrown step |
| SagaLaws.WaitingClaim | src/lib/sagas.ts:75-87 | an open task changes only the time of the next look, a done one sets the saga running at its step, a cancelled one sets it undoing the step before |
| SagaLaws.RunningClaim | src/lib/sagas.ts:98-108 | a step that ran is logged, and its result decides: the next step, a wait for a task, or the end; a thrown one changes nothing and leaves a failure to write; behind the last step the saga is complete |
| SagaLaws.CompensatingClaim | src/lib/sagas.ts:89-96 | a step is undone and the one before comes next, behind the first the saga is compensated; a throwing compensation changes nothing |
| SagaLaws.FailureLands | src/lib/sagas.ts:111-121 | the fifth failure sets the saga undoing the step before, or failed at the first; an earlier one has it retried after 1, 5, 30 and 120 minutes |
| SagaLaws.OverForGood | src/lib/sagas.ts:58-122 | in every orderly run a finished saga stays exactly as it is |
| SagaLaws.NothingRunsAfterAbort | src/lib/sagas.ts:58-122 | in every orderly run behind an abort only undoing is committed, and the saga stays called off |
| SagaLaws.CancelledTaskAborts | src/lib/sagaCore.ts:85-94 | behind the claim of a waiting saga whose task was cancelled no step ever runs, in any orderly run |
| SagaLaws.DoneEndsTheSaga | src/lib/sagaCore.ts:57 | behind a step that says it is done nothing runs and nothing is undone, in any orderly run, whatever steps are left |
| SagaLaws.OpenTaskHolds | src/lib/sagas.ts:75-83 | over any run in which its task is open a waiting saga changes only the time of the next look |
| SagaCore.LateFailureWriteRepeatsAStep | src/lib/sagas.ts:115-120 | a run in which a failure write lands late and the same step commits twice |
| SagaCore.LateFailureWriteExactly | src/lib/sagas.ts:115-120 | a failure write, however late, keeps the trace if and only if no further effect was committed since or the saga is compensating at the place the write sends it to |
| SagaCore.TraceIsKeptExactly | src/lib/sagas.ts:58-122 | over every run of any workers, orderly or not, the effects match the row all along if and only if every failure write that lands meets that condition |
| SagaCore.LateFailureWriteFinalExactly | src/lib/sagas.ts:115-120 | a finished saga stays finished under exactly the writes that give up at the first step, and stays as it is if it was given up there |
| SagaCore.LateFailureWriteSetsBackExactly | src/lib/sagas.ts:115-120 | of the late writes that keep the trace, exactly these do not raise what is left to do: a retry of a waiting saga or a running one with no more attempts on its row, and a giving up before the end or at the first step |
| SagaCore.LateFailureWriteReopens | src/lib/sagas.ts:115-120 | a late write that keeps the trace and reopens a saga that was given up |
| SagaCore.FailureReportIsTrueExactly | src/lib/sagas.ts:111-121 | in every world the report behind a failure write is true when the write lands, and when it is lost if and only if the row has the reported status anyway |
| SagaCore.TransactSpendsPotential | src/lib/sagaCore.ts:56-94 | a transaction leaves the row as it is or lowers a measure over phase, steps left and attempts left |
| SagaCore.FailureSpendsPotential | src/lib/sagaCore.ts:65-75 | a failure write lowers it |
| SagaCore.EffectiveAdvance | src/lib/sagas.ts:75-122 | a due advance of a saga that is not over, committing, with no open task and no throwing compensation, lowers the measure |
| SagaCore.SagaEnds | src/lib/sagas.ts:75-122 | a saga of T steps changes at most 7T times (once when T is 0) and is finished when the bound is reached |
| SagaStore.Store.StartSaga | src/lib/sagas.ts:29-44 | insert-or-ignore: a second start with a dedupe key finds the first saga and changes nothing |
| SagaStore.Store.ApplyPatchTo | src/lib/sagas.ts:48-55 | overwrites one row's control fields, the next run time only when given, and no other row |
| SagaStore.Store.RunTransaction | src/lib/sagas.ts:62-110 | the transaction in place equals the protocol's step, and reports what happened |
| SagaStore.Store.AdvanceSaga | src/lib/sagas.ts:58-122 | one advance is the transaction, or after a throwing step whatever other workers do and then the failure write, which may get lost while its status is reported all the same; a locked row or an unacknowledged commit reports nothing |
| SagaStore.Store.DrainSagas | src/lib/sagas.ts:125-140 | a pass advances the due rows in order up to its budget, other workers acting in between, and counts those reported as completed and as failed |
| SagaStore.ReportIsTrueExactly | src/lib/sagas.ts:111-121 | with other workers in between, the reported status is that of the row if and only if the failure write was not lost or the row has that status all the same |
| SagaStore.SilenceIsTrueExactly | src/lib/sagas.ts:58-122 | a report of nothing leaves the row as it was if and only if the row was locked or the transaction changed nothing; otherwise a commit was not acknowledged |
| SagaStore.ReportsExactly | src/lib/sagas.ts:58-122 | something is reported if and only if the row was free and the step threw, or a commit that changed the saga was acknowledged |
| SagaStore.CountsExactly | src/lib/sagas.ts:125-140 | in every pass, other workers included, the count of an ending plus the endings missed is the endings brought about plus those reported by mistake, and no completion is reported by mistake |
| SagaStore.AdvancedIsOrderly | src/lib/sagas.ts:58-122 | an undisturbed advance, its failure write landed or lost, is an orderly stretch of the protocol |
| SagaStore.DrainKeepsTraces | src/lib/sagas.ts:125-140 | an undisturbed pass keeps every saga's trace and never touches a finished one |
| Outbox.StepIsSound | src/lib/outbox.ts:62-99 | every step of any worker keeps: effects committed once exactly when done; done and dead never change |
| Outbox.ClaimExactly | src/lib/outbox.ts:66-79 | a try on a pending event makes it done with one attempt and one effect more, or leaves it as it was with a failure to write; on any other event nothing happens |
| Outbox.LandingExactly | src/lib/outboxCore.ts:53-71 | a failure write counts one attempt more than its worker read; the last one gives the event up, after an earlier one it is due again after exactly 1, 5, 30, 120 or 720 minutes |
| Outbox.ExactlyOnce | src/lib/outbox.ts:62-99 | for every interleaving of workers, failures and crashes the handler's effect is committed at most once and exactly when the event is done; done and dead are absorbing |
| Outbox.LateWriteSetsAttemptsBack | src/lib/outbox.ts:86-91 | a run in which a late failure write lowers the attempt counter |
| Outbox.OnlyStaleLandingsLower | src/lib/outbox.ts:86-91 | the counter falls at exactly the landings on a pending event whose worker read it at least two lower |
| Outbox.CounterRisesExactly | src/lib/outbox.ts:62-99 | over every run the counter never falls if and only if no such landing occurs |
| Outbox.TriesAreAccounted | src/lib/outbox.ts:62-99 | in every run that leaves the event pending, the tries are the counter plus the unwritten failures plus the lost ones and how far each landed one was behind |
| Outbox.TriesOfEveryRun | src/lib/outbox.ts:62-99 | the tries of every run, however it ends, are that account at the last moment the event was pending plus one if the next action tries it, and the limit is kept exactly when this is within it |
| Outbox.LostWritesAllowAnyTries | src/lib/outbox.ts:93-96 | for every number there is a run with that many tries that leaves the event as it was |
| Outbox.TwoWorkersExceedTheLimit | src/lib/outbox.ts:62-99 | a run without lost writes in which an event that may be tried once is tried twice |
| Outbox.LandingReportIsTrueExactly | src/lib/outbox.ts:80-99 | in every world, what the worker behind a landing failure write reports is true if and only if the event was still pending or had been given up and is reported so |
| Outbox.RivalMakesReportFalse | src/lib/outbox.ts:80-99 | a run in which a retry is reported for an event another worker has done |
| Outbox.TriesAreBounded | src/lib/outboxCore.ts:66-71 | when failures are recorded before the next claim the handler is tried at most the maximum number of times |
| Outbox.Table.EnqueueOutbox | src/lib/outbox.ts:21-32 | two enqueues with one dedupe key create one event; otherwise exactly one new pending event |
| Outbox.Table.SelectDue | src/lib/outbox.ts:120-121 | exactly the pending events whose time has come, in id order up to the limit |
| Outbox.Table.ProcessOne | src/lib/outbox.ts:62-99 | one attempt on one event: a locked row is skipped, others may act between the transaction and the failure write, and that write may be lost; the new table and the report |
| Outbox.Table.RecordFailure | src/lib/outbox.ts:80-98 | the guarded write: retry later or give up where the event is still pending, nothing elsewhere |
| Outbox.Table.DrainOutbox | src/lib/outbox.ts:115-132 | a pass processes the due events in order up to its deadline, others acting in between, and each count is the number of events so reported |
| Outbox.ReportIsTrueExactly | src/lib/outbox.ts:80-99 | one attempt's report on a pending event is true if and only if it committed in the open, the event was still pending when the failure write came, or it had been given up and is reported so |
| Outbox.AloneIsOrderly | src/lib/outbox.ts:62-99 | an attempt nobody interferes with is claim, then land or lose |
| Outbox.AloneReports | src/lib/outbox.ts:62-99 | each report of an undisturbed attempt says what became of the event: done, to be retried, given up, or as if untried |
| SnapshotJson.SortKeysSorts | src/domain/production-lifecycle.ts:145 | sorting the keys is strictly ordered, and drops and doubles none |
| SnapshotJson.KeysAscendByUnits | src/domain/production-lifecycle.ts:145 | of two written keys the earlier is a proper prefix of the later, or has the smaller code unit where they first differ |
| SnapshotJson.SortedIsUnique | src/domain/production-lifecycle.ts:145 | two sorted key lists with the same keys are the same list |
| SnapshotJson.SameSnapshotPrintsAlike | src/domain/production-lifecycle.ts:138-148 | values equal up to key order at every depth print alike |
| SnapshotReader.WrittenCharacter | src/domain/production-lifecycle.ts:139-146 | which characters of a string stand as they are, which take an escape of two units, and which four small hexadecimal digits; pairs of surrogates stay together |
| SnapshotReader.ValueReadsBack | src/domain/production-lifecycle.ts:138-148 | a reader after RFC 8259 reads the text of every value, whatever delimited text follows, as that value with its keys in written order |
| SnapshotReader.SnapshotReadsBack | src/domain/production-lifecycle.ts:138-148 | the whole text reads as the same snapshot, its keys in code unit order at every depth |
| SnapshotReader.QuoteUnambiguous | src/domain/production-lifecycle.ts:139-146 | a quoted string, escapes and lone surrogates included, can be told from whatever follows it |
| SnapshotReader.PrintUnambiguous | src/domain/production-lifecycle.ts:138-148 | a printed value can be told from any delimited text behind it: equal texts mean the same snapshot and the same rest |
| SnapshotReader.SnapshotIdentity | src/domain/production-lifecycle.ts:138-154 | equal text if and only if the values are equal up to object key order at every depth |
| AuditChain.VerifyAuditBatch | src/lib/auditChain.ts:87-126 | the loop over a batch computes the row-by-row verdict and state |
| AuditChain.BatchSplit | src/lib/auditChain.ts:87-126 | cutting the rows anywhere and threading the state gives the same verdict, first invalid id and state |
| AuditChain.CheckAuditChain | src/lib/systemHealth.ts:169-199 | the batched health check gives the verdict on the rows it has read in one go, and stops only at the end or the row limit |
| AuditChain.CheckRowExactly | src/lib/auditChain.ts:87-126 | one more row is accepted if and only if it keeps a chain condition stated on the rows alone, and the verifier's memory stays right |
| AuditChain.VerdictExactly | src/lib/auditChain.ts:87-126 | a rejection names the first row whose prefix is not accepted and why: unsealed behind sealed ones, a wrong hash on a row that is linked, or else a wrong link; the state is that of the rows before |
| AuditChain.AcceptedExactly | src/lib/auditChain.ts:87-126 | a log is accepted if and only if unsealed rows come first and each sealed row has its own hash and is linked to the row before or is an old fork close in time and linked to one of the last ten |
| AuditChain.NoForksIsStrict | src/lib/auditChain.ts:103-118 | acceptance with tolerance and without forks is strict acceptance |
| AuditEvidence.RowsCanBeFoldedAway | src/lib/auditChain.ts:27-37 | for any digest, every accepted log of two or more sealed rows has an accepted log of a single row with the same last hash, whose action key holds the previous hash |
| AuditEvidence.UnguardedEvidenceExactly | src/lib/auditChain.ts:87-126 | over all logs without a clash the last hash fixes what a log has hashed if and only if it has at most one sealed row |
| AuditText.PlainKeyIsGuarded | src/lib/auditChain.ts:27-37 | a row whose action key starts with no hexadecimal digit and whose actor id is short cannot be read as a hash and fields |
| AuditText.SameLink | src/lib/auditChain.ts:27-37 | one text fixes the previous hash, the joined fields and the time, where a missing previous hash comes with fields that begin with no hash |
| AuditEvidence.TamperEvident | src/lib/auditChain.ts:87-126 | two strictly accepted logs whose first sealed rows begin with no hash and that end in the same hash have hashed the same things in the same order, or hold two texts with one digest |
| AuditEvidence.TamperEvidentExactly | src/lib/auditChain.ts:87-126 | with the tolerance, every accepted log with such a first row, the same last hash and no clash has hashed the same if and only if there is no cutoff or no sealed row after the first is older than it |
| AuditEvidence.RowCanBeInserted | src/lib/auditChain.ts:103-118 | in front of a row older than the cutoff a row with any action key can be inserted, the log staying accepted with the same last hash |
| AuditText.TextDoesNotFixFields | src/lib/auditChain.ts:23-38 | two different rows with one text, because the fields are joined without separator |
| AuditText.TextFixesFields | src/lib/auditChain.ts:23-38 | when both action keys neither start nor end with a digit, equal texts of equally linked rows mean equal fields |
| AuditText.OneActionFieldsExactly | src/lib/auditChain.ts:23-38 | among the equally linked rows of one action equal texts mean equal fields if and only if the action key is not just digits |
| AuditEvidence.LengthIsEvident | src/lib/auditChain.ts:103-118 | a log without forks is no longer than any guarded accepted log with its last hash and no clash, and as long when that has no forks either |
| AuditEvidence.ForkHidesRows | src/lib/auditChain.ts:103-118 | from every accepted log with a fork some rows can be taken out with the last hash unchanged |
| AuditEvidence.DeletionEvidentExactly | src/lib/auditChain.ts:103-118 | every accepted log with such a first row, the same last hash and no clash still holds each sealed hash, as often, if and only if there is no tolerated fork |
| AuditChain.AuditLog.WriteAuditEvent | src/lib/governance.ts:58-75 | under the lock a write adds one row with the event's fields and time, linked to the last sealed hash, changes no other, and keeps the log strictly accepted |
| AuditChain.LegacyIsAccepted | src/lib/governance.ts:58-75 | a log of unsealed rows only is accepted |
| AuditChain.WriterExtends | src/lib/governance.ts:58-75 | a locked write extends any strictly accepted log, an unsealed prefix included |
| AuditChain.UnlockedWritersFork | src/lib/governance.ts:56-62 | two writers that read the same last row make a log that strict checking rejects at the second, unless the first one's hash is the very hash it links to |
| DecimalQuantity.DigitsRead | src/lib/decimal-quantity.ts:6-17 | digits with up to six decimals are read as whole units plus padded millionths |
| DecimalQuantity.SignRead | src/lib/decimal-quantity.ts:6-17 | a leading minus sign negates what follows |
| DecimalQuantity.ReadAsWritten | src/lib/decimal-quantity.ts:4-17 | spaces, an optional sign, digits and up to six decimals are read as the signed number of millionths they say |
| DecimalQuantity.OnlyWrittenIsRead | src/lib/decimal-quantity.ts:4-17 | and no other text can be read |
| DecimalQuantity.ReadWritten | src/lib/decimal-quantity.ts:6-27 | reading a written number of millionths returns it, for every integer |
| DecimalQuantity.WrittenIsCanonical | src/lib/decimal-quantity.ts:6-27 | two texts are rewritten alike if and only if they are read alike |
| DecimalQuantity.WrittenForm | src/lib/decimal-quantity.ts:19-27 | every number is written with a minus sign exactly below zero, without leading zeros, and with no decimal zero at the end |
| DecimalQuantity.PlainIsUnique | src/lib/decimal-quantity.ts:19-27 | only one text in that form says a given number of millionths |
| DecimalQuantity.RoundsToNearest | src/lib/decimal-quantity.ts:29-31 | rounding is to the nearest integer, a half upward, for every non-negative numerator |
| DecimalQuantity.RoundsToNearestExactly | src/lib/decimal-quantity.ts:29-31 | over all numerators: if and only if not negative, at most d/2 below zero, or leaving d/2, rounded down, over a multiple of d |
| DecimalQuantity.SignsCancel | src/lib/decimal-quantity.ts:29-31 | a negative divisor rounds as if both signs were changed |
| DecimalQuantity.NegativeProductIsLost | src/lib/decimal-quantity.ts:62-64 | the smallest negative quantity times one is written as zero |
| DecimalQuantity.SumIsExact | src/lib/decimal-quantity.ts:54-56 | sums are exact |
| DecimalQuantity.DifferenceIsExact | src/lib/decimal-quantity.ts:58-60 | differences are exact |
| DecimalQuantity.ComparisonIsExact | src/lib/decimal-quantity.ts:48-52 | comparison is the sign of the difference, and zero if and only if both are written alike |
| DecimalQuantity.ProductIsNearest | src/lib/decimal-quantity.ts:62-64 | products of any two quantities are within half a millionth if and only if the product rounds well, so always when not negative |
| DecimalQuantity.QuotientIsNearest | src/lib/decimal-quantity.ts:66-70 | the same for quotients by any divisor but zero |
| CeilToThree.ThousandthsReadBack | src/domain/planning.ts:166-169 | thousandths are written so that they read back |
| CeilToThree.ThousandthsWritten | src/domain/planning.ts:166-169 | they are written as any quantity is, without needless zeros |
| CeilToThree.CeilingIsLeast | src/domain/planning.ts:161-170 | a non-negative quantity becomes the next multiple of 0.001 at or above it, by less than 0.001, written as any quantity is |
| CeilToThree.CeilingIsExactly | src/domain/planning.ts:161-170 | over all quantities: that holds if and only if it is not negative, or at most -1 and in whole thousandths |
| CeilToThree.SmallNegativeIsUnreadable | src/domain/planning.ts:166-169 | thousandths between zero and minus one are written as text that no reader accepts |
| BomUses.RecipeFound | src/domain/planning.ts:178 | the recipe behind a line is the one stored last under its id, and missing if and only if there is none |
| BomUses.RaisedExactly | src/domain/planning.ts:187-209 | a blocker is raised if and only if some line's recipe is missing, stopped, makes nothing, has no components, or has an unlinked component, looked at in this order |
| BomUses.SourcesExactly | src/domain/planning.ts:205-219 | what draws on a material is recorded once for each linked component of an active recipe with positive output, in the order of lines and components |
| BomExplosion.AddUse | src/domain/planning.ts:210-218 | one component's contribution is added to its material's entry: total, earliest date, sources |
| BomExplosion.Block | src/domain/planning.ts:181-185 | blockers are noted once each, whatever repeats them |
| BomExplosion.ExplodeLine | src/domain/planning.ts:205-219 | a usable line adds up all its linked components and notes the others, or fails where a quantity cannot be read |
| BomExplosion.CollectDemands | src/domain/planning.ts:222-225 | the entries become one demand per needed material, rounded up and sorted by id |
| BomExplosion.ExplodeBomLines | src/domain/planning.ts:177-227 | every demand names all that draws on its material, in order, every source being a component of an active recipe with positive output; a blocker is there if and only if some line gives a reason for it, in the order of the lines; no result exactly where the program throws |
| BomExplosion.EveryComponentIsAccountedFor | src/domain/planning.ts:205-219 | each component of an active recipe with positive output is added up if it is linked and blocked if not |
| BomExplosion.EveryLineIsAccountedFor | src/domain/planning.ts:187-204 | a line whose recipe is missing, stopped, makes nothing or is empty raises a blocker that says so |
| BomExplosion.UsableExactly | src/domain/planning.ts:210 | a component of an exploded recipe can be added up if and only if its own and the line's quantity can be read |
| BomExplosion.GrossIsLeastMultiple | src/domain/planning.ts:215-223 | the gross quantity is the least multiple of 0.001 at or above the sum of the recorded contributions |
| BomExplosion.UseIsClose | src/domain/planning.ts:210 | a contribution is within half a millionth times (1 + 1/output) of the exact need |
| BomExplosion.GrossCoversNeed | src/domain/planning.ts:210-223 | the exact rational need exceeds the gross quantity by no more than that slack summed over its sources, and the gross exceeds the need by less than the slack plus 0.001 |
| BomExplosion.EarliestIsMinimum | src/domain/planning.ts:216 | the recorded date is the least one over the sources |
| BomExplosion.OrderIsNoMatter | src/domain/planning.ts:187-225 | totals, gross quantities and earliest dates do not depend on the order of the lines |
| StockReservations.AllocateConsumption | src/lib/operationsCenterCore.ts:349-364 | the loop drains the reservations in order as specified |
| StockReservations.AllocationIsExact | src/lib/operationsCenterCore.ts:349-364 | exactly what is asked for or all there is, oldest first, each earlier reservation emptied |
| StockReservations.Ledger.ReserveStock | src/lib/stock.ts:88-105 | succeeds exactly when the amount is positive and available, raises that item's reserved quantity and nothing else |
| StockReservations.Ledger.ReleaseStockReservation | src/lib/stock.ts:107-123 | succeeds exactly when that much is reserved, lowers it and nothing else |
| StockReservations.Ledger.ApplyStockMovement | src/lib/stock.ts:26-82 | changes the physical quantity only and never below zero |
| StockReservations.Ledger.ShrinkRow | src/lib/operationsReservations.ts:12-80 | lowering a row's remainder and the item's reserved quantity together keeps the books balanced, and the over-release error is never reached |
| StockReservations.Ledger.ReleasePlanReservations | src/lib/operationsReservations.ts:12-23 | every active row of the plan is released, no other row changes, and the count is their number |
| StockReservations.Ledger.SupersedeOthers | src/lib/operationsReservations.ts:30-35 | the other approved plans of the order are superseded and their rows released |
| StockReservations.Ledger.ReservePlanMaterials | src/lib/operationsReservations.ts:29-52 | after superseding, the wants are granted in order as far as available; stock quantities stay, reserved quantities balance |
| StockReservations.Ledger.GrantWants | src/lib/operationsReservations.ts:37-51 | the loop adds exactly the granted rows and reports their sum and number |
| StockReservations.GrantIsExact | src/lib/operationsReservations.ts:41-50 | each item is granted what is wanted of it or all that is available, never more |
| StockReservations.SupersededHoldNothing | src/lib/operationsReservations.ts:30-35 | a superseded plan is no longer approved and holds nothing |
| StockReservations.Ledger.ConsumePlanReservation | src/lib/operationsReservations.ts:55-80 | takes exactly the smaller of the request and what is left on all active rows of the item under the order's approved plan, oldest first, and lowers the item by that much |
| StockReservations.Ledger.SpendTakes | src/lib/operationsReservations.ts:69-79 | the loop over the takes books each one on its row and on the item |
| StockReservations.Ledger.Select | src/lib/operationsReservations.ts:57-66 | the open reservations of the item under the order's approved plan, in id order |
| StockReservations.SelectedExactly | src/lib/operationsReservations.ts:57-66 | a row is selected if and only if it is active, of the item, and under a plan of the order that is approved, with what it has left, in id order |
| StockReservations.SelectedAreOpen | src/lib/operationsReservations.ts:57-66 | every selected row is active with a positive remainder, and the ids ascend |
| StockReservations.Ledger.CreatePlan | src/routes/operations-plans.ts:69-86 | a new draft replaces the draft and submitted plans of its order |
| StockReservations.Ledger.SubmitPlan | src/routes/operations-plans.ts:133-146 | a draft is submitted, or at level 0 approved and reserved for in one step; the error cases |
| StockReservations.Ledger.DecidePlan | src/routes/operations-plans.ts:160-172 | a submitted plan is approved and reserved for in one step, or rejected; the error cases in their order |
| StockReservations.Ledger.Approve | src/routes/operations-plans.ts:139-143 | the status and the reservation in one transaction |
| StockReservations.Ledger.ReleasePlan | src/routes/operations-plans.ts:187-193 | a manual release frees the plan's rows and leaves its status |
| PlanBooks.ApprovalIsSound | src/routes/operations-plans.ts:139-143 | approving an open plan leaves it the only approved one of its order, and every row that holds stock with an approved plan |
| PlanBooks.ConsumptionIsSound | src/lib/operationsReservations.ts:55-80 | consumption keeps the books sound |
| PlanBooks.OnePlanIsConsumed | src/lib/operationsReservations.ts:55-80 | what consumption draws on belongs to one plan, the approved one of the order |
| PlanBooks.ApplyIsSound | src/routes/operations-plans.ts:69-193 | every call keeps the books sound |
| PlanBooks.BooksStaySound | src/lib/operationsReservations.ts:12-80 | in every run from any opening stock: reserved is outside holds plus what active rows have left, at most one plan of an order is approved and one open, and only approved plans hold anything |
| PlanLaws.ReleaseExactly | src/lib/operationsReservations.ts:12-23 | a release ends the plan's active rows and changes nothing else of them, nor any other row or plan |
| PlanLaws.ActiveAreCounted | src/lib/operationsReservations.ts:22 | the count is the number of rows that were active |
| PlanLaws.ConsumptionExactly | src/lib/operationsReservations.ts:55-80 | row by row: only open rows of the order's approved plan give up anything, none before all older ones are empty, and together what is asked for or all they have |
| PlanLaws.ApprovalExactly | src/lib/operationsReservations.ts:29-52 | plan by plan and row by row: the approved plans of the same order are superseded and their active rows released, no other plan or row changes, and of each item what is wanted or available is reserved in new rows |
| PlanLaws.CreationExactly | src/routes/operations-plans.ts:69-86 | the open plans of the order are superseded and no other, and the new plan is a draft |
| PlanLaws.SubmissionExactly | src/routes/operations-plans.ts:133-146 | a draft is approved at level 0 and submitted at any other, and nothing else changes |
| PlanLaws.DecisionExactly | src/routes/operations-plans.ts:155-172 | only a submitted plan is decided on, by whom is allowed to, a rejection with a reason; otherwise nothing changes |
| PlanLaws.PlansMove | src/routes/operations-plans.ts:69-193 | in every call each plan moves on as it may: above level 0 none is approved that was not submitted, and rejected and superseded ones stay so |
| PlanRuns.MovementExactly | src/lib/stock.ts:26-82 | a movement changes the physical quantity of its item, unless that would fall below zero, and nothing else |
| PlanRuns.HoldExactly | src/lib/stock.ts:88-123 | a hold is taken as far as free stock allows and given back as far as it was taken, and no row, plan or physical quantity changes |
| PlanRuns.RunsCompose | src/routes/operations-plans.ts:69-193 | a run may be cut anywhere, and a run of one call is that call |
| PlanRuns.ReservationsAdvance | src/lib/operationsReservations.ts:12-80 | over every run a reservation keeps its plan, item and size, only gives up more and more of it, and once ended stays as it is |
| PlanRuns.StockFollowsMovements | src/lib/operationsReservations.ts:12-80 | over every run the physical quantity of an item follows from its movements alone, whatever plans reserve, release or consume |
| PlanRuns.ApprovedWasSubmitted | src/routes/operations-plans.ts:133-172 | in every run a plan above level 0 that is approved was submitted for a decision before |
| ChatPointers.Conversation.PostMessage | src/lib/chatService.ts:335-453 | a post stores one message and updates the row as specified; a retry with a known client id returns the stored message and changes nothing |
| ChatPointers.Conversation.Store | src/lib/chatService.ts:341-450 | the insert and the row update of one message keep every law of the conversation |
| ChatPointers.Conversation.TouchCustomerPresence | src/lib/chatService.ts:641-651 | the customer's delivered pointer catches up with the last message; nothing moves back |
| ChatPointers.Conversation.MarkCustomerRead | src/lib/chatService.ts:653-663 | the customer has read everything and nothing is unread |
| ChatPointers.Conversation.MarkStaffDelivered | src/lib/chatService.ts:665-672 | the staff's delivered pointer catches up with the last message |
| ChatPointers.Conversation.MarkStaffRead | src/lib/chatService.ts:674-683 | the staff has read everything and nothing is unread |
| ChatPointers.PostKeepsLaws | src/lib/chatService.ts:341-450 | a counted message keeps pointers ordered and counters equal to what lies above them |
| ChatPointers.SilentKeepsLaws | src/lib/chatService.ts:483-515 | a note, an internal notice or an automatic reply changes no pointer or counter and breaks no law |
| ChatPointers.StatusNeverGoesBack | src/lib/chatPolicy.ts:465-473 | when pointers only grow, no message's status goes backwards |
| ChatPointers.RunKeepsLaws | src/lib/chatService.ts:335-453 | every serialized run, retries included, keeps the laws |
| ChatPointers.CountersAreRight | src/lib/chatService.ts:335-453 | in every serialized run read <= delivered <= last message, the customer's counter is the number of staff and closing messages above the read pointer, and the staff's that of the customer's messages unless closed on unread ones |
| ChatPointers.AutoRepliesExactly | src/lib/chatService.ts:548-558 | in every run the customer's counter is the number of all messages shown above the read pointer if and only if no automatic reply lies there |
| ChatPointers.AutoReplyStaysAbove | src/lib/chatService.ts:548-558 | a run in which one still lies there after the customer has read everything |
| ChatPointers.OnlyClosingForgets | src/routes/chat-staff.ts:483-505 | a right staff counter is made wrong if and only if the conversation is closed while something is unread |
| ChatPointers.StaffCountExactly | src/routes/chat-staff.ts:483-505 | over every serialized run the staff counter is right all along if and only if the conversation is never closed on unread messages |
| ChatPointers.ClosingForgetsUnread | src/routes/chat-staff.ts:483-505 | a run in which it happens |
| ChatPointers.StatusesAdvance | src/lib/chatService.ts:335-453 | from any prefix of a run to the whole of it no message's status goes backwards |
| ChatPointers.ReadWithinDelivered | src/lib/chatService.ts:341-450 | read <= delivered survives every interleaving of inserts and row updates |
| ChatPointers.LateUpdateMovesBack | src/lib/chatService.ts:341-450 | an interleaving in which a status goes from read back to sent |
| ChatPointers.ForwardExactly | src/lib/chatService.ts:341-450 | from ordered pointers a row update moves none back if and only if its message is not older than the last one |
| ChatPointers.PointersAdvanceExactly | src/lib/chatService.ts:341-450 | over every interleaving no pointer ever moves back if and only if the updates come in the order of the ids |
| ChatPointers.InTimeStatusesAdvance | src/lib/chatPolicy.ts:465-473 | then no message's status goes backwards |
| ChatPointers.UpdateKeepsStatusesExactly | src/lib/chatPolicy.ts:465-473 | for every log, one update takes no stored message's status back if and only if no stored message of the other side lies above its id and within what the posting side has been shown |
| ChatLaws.PostShows | src/lib/chatService.ts:335-453 | who posts has read everything so far and has nothing unread, the other side has one more unread, no other status or counter changes; a farewell and silent messages likewise, and a retry shows nothing |
| ChatLaws.PointerCallShows | src/lib/chatService.ts:641-683 | coming by makes everything so far delivered, reading makes it read and clears the counter, for that side only |
| ChatLaws.ShownDetermines | src/lib/chatPolicy.ts:465-473 | pointers in order that show every message alike are the same |
| ChatLaws.RetriedExactly | src/lib/chatService.ts:362-378 | a post is a retry if and only if its side has stored a message with that client id, notes counting as the staff's |
| Base32.Base32Encode | src/domain/auth-security.ts:31-44 | the loop computes the five-bit letters of the bytes |
| Base32.Base32Decode | src/domain/auth-security.ts:46-59 | the loop computes the whole bytes of the letters' bits |
| Base32.LettersCarryBits | src/domain/auth-security.ts:31-59 | the letters carry the bits and fewer than five fill bits, for every bit sequence |
| Base32.AlphabetIsStandard | src/domain/auth-security.ts:29 | the alphabet of section 6 of RFC 4648: the capital letters stand for 0 to 25 and the digits 2 to 7 for 26 to 31 |
| Base32.NoiseCarriesNothing | src/domain/auth-security.ts:46-59 | characters outside the alphabet carry no bits wherever they stand |
| Base32.PaddingCarriesNothing | src/domain/auth-security.ts:46-59 | trailing padding carries none either |
| Base32.DecodeUndoesEncode | src/domain/auth-security.ts:31-59 | decoding undoes encoding for every byte sequence from any text whose upper-cased letters are those of the encoding, whatever noise and padding it holds, and the fill bits make no extra byte |
| Base32.LongSIsRead | src/domain/auth-security.ts:46-59 | a character outside the alphabet that upper-cases to a letter is read as that letter |
| Base32.CaseDoesNotMatter | src/domain/auth-security.ts:46-59 | capital and small letters are read alike |
| Base32.SpeltLettersAreRead | src/domain/auth-security.ts:46-59 | a character whose capital is spelt with letters from A to Z is read as those letters |
| Base32.RoundTrip | src/domain/auth-security.ts:31-59 | the plain round trip |
| Csv.CellReadsBack | src/lib/csv.ts:7-11 | a reader after section 2 of RFC 4180 reads a cell back with its formula guard |
| Csv.RowReadsBack | src/lib/csv.ts:13-15 | and a row of at least one cell |
| Csv.ExportReadsBack | src/lib/csv.ts:7-15 | and the whole export, byte order mark skipped, whatever quotes, commas and line feeds the cells hold |
| Csv.GuardLaws | src/lib/csv.ts:9 | no guarded cell starts like a formula, and two cells come out alike only when one is the other's guarded form |
| WorkingTime.WorkingExactly | src/lib/chatPolicy.ts:162-171 | a minute of a local day is working time if and only if the day is an open weekday and no holiday, and the minute lies within the hours |
| WorkingTime.CountInDay | src/domain/approvals-inbox.ts:31-48 | within a day, counting working minutes one by one is the overlap with the day's window |
| WorkingTime.WorkingMinutesBetween | src/domain/approvals-inbox.ts:31-48 | the day loop equals counting minutes one by one, over the last sixty days of the span |
| WorkingTime.InboxTimeAddsUp | src/domain/approvals-inbox.ts:31-48 | within sixty days the measure adds up over splits and is monotone |
| WorkingTime.CutIsHarmlessExactly | src/domain/approvals-inbox.ts:31-48 | a wait is measured in full if and only if it spans at most sixty days, or each day cut off is the day off or is the first with its hours over |
| WorkingTime.BusinessMinutesBetween | src/lib/chatPolicy.ts:178-207 | the chat loop, holidays included, equals counting minutes up to its limit of 400 days |
| WorkingTime.WorkingHoursBetween | src/lib/operationsCenterCore.ts:58-73 | the desk loop equals counting minutes up to its limit, rounded to hundredths of an hour |
| WorkingTime.MeasuresAgree | src/domain/approvals-inbox.ts:31-48 | on one calendar without holidays and within sixty days inbox and chat count the same minutes, and the desk reports them to the nearest hundredth of an hour |

## Left out

- Routes, middleware, screens, scripts, notifications and push delivery, and the SQL text: only the row state, the locks and the guards of the statements are kept.
- SHA-256, HMAC, one-time codes and random generation: the digest of the audit chain is an arbitrary function; `hashProductionSnapshot` is represented by the text it hashes.
- Floating-point noise, the 1e-9 tolerances and the rounding of reported numbers: work is exact.
- Capacity: utilisation, overloaded and free day lists, `orderDemandDays` and `remainingFraction` are arithmetic on one value.
- Name normalisation, `matchRecord` and `completenessScore`: name similarity starts from normalised names.
- Sagas: step definitions, the JSON state and the error text; an unknown saga type.
- Outbox: payload validation, retention purges, and handlers whose work is not part of the transaction.
- Snapshots: `undefined`, non-finite numbers, negative zero, dates and `toJSON`; a number is represented by its printed text.
- Quantities given as numbers instead of text, and the minimum and zero-floor helpers, which are one comparison each.
- BOM: message texts, product codes of production lines, `calculatePlanningRequirement`, `mergeCapacityLoads` and `findDuplicateOperationNumbers`.
- Reservations: two approvals of one order's plans that overlap in time (each call is one atomic step), who may decide on a plan (an input), `planReservationWants` (the wants are an arbitrary list), deletion of items, and the movement and timeline records beside the quantities.
- StockReservations.Ledger.HoldOutside: requires that the rest of the system gives back no more than it took, because its own records are not modelled.
- SagaCore.SagaTrace: holds for runs in which a failure write lands or is lost before the row is claimed again, because without this it is false (LateFailureWriteRepeatsAStep).
- SagaStore.DrainKeepsTraces: for passes in which no other worker acts between a rollback and its failure write, because with one it is false; SagaCore.TraceIsKeptExactly covers every run.
- AuditText.TextFixesFields: one direction for two different action keys; the exact condition is proved for the rows of one action.
- AuditEvidence.TamperEvidentExactly: for logs whose own texts and those of blank rows in front of them have different digests, which can be computed from the log; that a log out of the tolerance's reach is fixed holds without this (AuditEvidence.SameEndSameRows).
- AuditEvidence.DeletionEvidentExactly: under the same condition on its texts; that a log without forks loses no hash holds without it (AuditEvidence.HashesAreKept).
- AuditEvidence.LengthIsEvident: nothing is promised of the number of rows a last hash stands for without the check of the first row, because a text does not tell whether it begins with a hash.
- Audit: times outside the years 0 to 9999, whose ISO text has another length.
- BomExplosion.GrossIsLeastMultiple: for non-negative quantities and positive outputs, which the request checks enforce.
- Audit: delegation functions and the event narrative; several processes sharing one lock are one writer.
- Chat: attachments, previews, the answer-time clock, handler claims, escalation and conversation states other than the counters and pointers.
- Working time: daylight saving and named zones (the zone offset is a constant) and instants that are not whole minutes.
- Base32: of upper-casing, what yields no letter from A to Z is left as it is; it is noise either way.
- CSV: cells that are not strings are taken after their conversion to text.
- Status tables, role and permission lists, settings and service thresholds: finite tables that a case split settles.
