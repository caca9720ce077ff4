# Verification of the device-management backend

A Dafny 4.11 model of the parts of the repository whose guarantees depend on more than one function, with proofs of those
guarantees. Check everything with

    dafny verify dfyconfig.toml

## What is modelled

**Remote commands** (`Command*.dfy`, `BulkRefresh.dfy`, `Mqtt.dfy`). Delivery over MQTT is at-least-once; the
`device_commands` table is the source of truth. Each statement the API sends to the database is one atomic `Event`
(`CommandStore`). Each service call (`create`, `refresh`, a status message with its redelivery, an ack, a reconnection with
its flush) is a process that stops between two statements (`CommandCalls`). A run is any sequence of steps of any number of
such processes, interleaved with the clock, device changes and deletions, so what is proved of every run holds under every
interleaving. `CommandService` is the service as a class: each `await` lets an arbitrary schedule of other calls run, and
every statement is proved to be the step of the process it stands for, so the theorems about runs apply to the class.

- `CommandHistory`, `CommandColumns`: the status of a command is a closed form of its own events, the first one that ends it
  wins; every other column of its row is told by the same events.
- `CommandOutcomes`: why a call ends as it does. Every outcome has its cause in the run, and no answer a refresh reads is
  passed over.
- `CommandProtocol`, `CommandGuarantees`: the invariant of every reachable state, what each call guarantees when it ends.
- `CommandSweeps`: a redelivery from start to end, row by row.
- `CommandTiming`, `CommandDurations`: the refresh deadline against the command's own expiry, and how long a refresh
  and a bulk refresh take, from the time that passes while its call stands at each statement.
- `CommandGate`: what was true of a device before any command of it could exist, and the request each row holds.
- `CommandWitnesses`: runs from a boot that show what the service does not promise.

**Enrollment** (`Otp*.dfy`, `Enrollment*.dfy`, `DeviceService.dfy`). The OTP table refines a map from pending codes to
expiries; issues and consumptions pair up over whole runs; the table is conserved. The enrollment transaction consumes a
challenge and pins a public key, or rolls back; `EnrollmentRows` says what it and an admin's edit leave in every column.

**Lists** (`LikeSearch.dfy`, `Pagination.dfy`, `SortParam.dfy`). The search box against the LIKE operator (section 9.7.1 of
the PostgreSQL documentation), pages against the whole result, the `sort` parameter against its parser.

**ADB over WebUSB** (`AdbFraming.dfy`, `AdbServices.dfy`, `AdbDevice.dfy`, `FakeDevice.dfy`). The incremental packet parser
of the WebUSB stub, its encoder, and the install accounting behind them.

**Telemetry and the fleet summary** (`Telemetry*.dfy`, `FleetSummary.dfy`). A patch reads its row, then writes the merge over
what it read, with anything in between; `TelemetryRuns` says what is left of the documented merge.

`Wrappers.dfy`, `Devices.dfy`, `Decimals.dfy` and `Splitting.dfy` hold what several of these share.

## Where the model follows the code rather than its comments

- `expired` is documented as "never acknowledged before expiresAt". A refresh that gives up also expires a command the
  device acknowledged before it ran out: `AckedInTimeYetExpired` says exactly when, `AnAcknowledgedRefreshExpires` is a run
  in which it happens, and `RowsAreConsistent` says that only a refresh ends that way.
- A bulk refresh is documented to last at most `REFRESH_TIMEOUT_MS`. It lasts as long as its slowest refresh, from its check to
  its last statement, whatever the outcomes: `BulkRefreshLasts` gives the exact condition, and `ARefreshOutlastsItsTimeout`
  is a run of up to 20 s with a store that answers at once.
- The expiry counts from the clock read before the insert, the wait from the statement that starts it, and nothing ties one
  to the other: `WaitFollowsItsStatements` gives the exact condition on the time between them. `ARefreshIsCutShort` and
  `ASlowInsertCutsShort` are runs in which the command expires while it is waited for.
- A patch is documented to merge into what the device reported. The merge is over the row as it was read, without a
  transaction: `LastWriterWinsExactly` says exactly when each field is the last value written to it, and `LostUpdate` is a
  run of two patches that loses one.
- `generateOTP` is documented to return a different code at each call. A code that ran out or was used comes back
  (`CodeIsIssuedTwice`); `IssueIsRefused` says exactly when a code cannot be issued.

## Model

| member | source | states |
|---|---|---|
| `CommandHistory.FinalStatus` | apps/api/src/features/command/repository.ts:65-130 | Over every run after its creation, a command's row is gone exactly when its device was deleted; otherwise its status is a closed form of its own events: the first answer, giving-up or overdue sweep before any ack wins, else acknowledged, sent or pending |
| `CommandHistory.RowFollowsClosedForm` | apps/api/src/features/command/repository.ts:65-130 | Running the statements one by one on a row and reading the closed form off the trace agree at every length, and a terminal status means some event ended the command |
| `CommandHistory.RowIsIndependent` | apps/api/src/features/command/repository.ts:65-130 | A row evolves by its own events, overdue sweeps, its device's deletion and the clock alone, whatever other commands and devices do |
| `CommandHistory.RowsMoveForward` | apps/api/src/features/command/repository.ts:65-130 | A status never goes back in rank, dates are written once and agree with the status, the identity of the row never changes |
| `CommandHistory.TerminalIsForever` | apps/api/src/features/command/repository.ts:38-62 | A succeeded, failed or expired row never changes again and is never selected for delivery |
| `CommandHistory.DeletedWithItsDevice` | apps/api/src/drizzle/schemas/command-schema.ts:22-24 | A row disappears exactly when its device is deleted |
| `CommandHistory.DeliverableByHistory` | apps/api/src/features/command/repository.ts:37-48 | `findDeliverable` returns exactly the device's commands that nothing ended, that no ack of its own reached and that have not run out |
| `CommandHistory.FlushableByHistory` | apps/api/src/features/command/repository.ts:50-62 | `findPendingForOnlineDevices` returns exactly the commands that nothing ended, that no ack of their device reached, that nobody recorded as sent, that have not run out, and whose device is there and online at that instant |
| `CommandColumns.RowIsTold` | apps/api/src/features/command/repository.ts:64-119 | Every column after any run: what the request gave stays; each date is the instant of the one event that sets it; result and error are those of the last ack taken that carries one, and stay where none does |
| `CommandColumns.EveryRowIsTold` | apps/api/src/features/command/repository.ts:13-119 | In every run from a boot, every row was inserted blank by one action and is told, column by column, by the events since |
| `CommandHistory.AckedYetExpired` | apps/api/src/drizzle/schemas/command-schema.ts:6-13 | An expired row has an ack date exactly when the first event that could end it is a caller giving up after an ack of its device |
| `CommandHistory.AckedInTimeYetExpired` | apps/api/src/drizzle/schemas/command-schema.ts:6-13 | An expired row was acknowledged before its `expiresAt` exactly when the first event that could end it is a caller giving up, and an ack of its device came before that and before it ran out |
| `CommandHistory.MarkSentNeverMatters` | apps/api/src/features/command/repository.ts:64-72 | Removing every `markSent` of a command from a run changes nothing but `sentAt` and pending against sent |
| `CommandHistory.MarkSentPlacementIsInvisible` | apps/api/src/features/command/repository.ts:64-72 | Once an ack is in, two runs that differ only in where their `markSent`s land end in the same status |
| `CommandHistory.ForeignAcksChangeNothing` | apps/api/src/features/command/service.ts:166-174 | Removing the acks another device sent for a command leaves its row exactly as it was |
| `CommandCalls.StoreFollowsTrace` | apps/api/src/features/command/service.ts:65-228 | Every interleaving of the calls is a run of the store's statements |
| `CommandProtocol.StepKeepsInv` | apps/api/src/features/command/service.ts:65-217 | Every step of every call, and everything outside, keeps the invariant of the table, of the suspended calls and of the publication log |
| `CommandProtocol.ReachableInv` | apps/api/src/features/command/service.ts:65-217 | The invariant holds in every state reachable from a boot |
| `CommandProtocol.AttemptedStep` | apps/api/src/features/command/service.ts:137-141 | What a call has published, as logged, is what its position says, step by step |
| `CommandProtocol.FinishedCallRecorded` | apps/api/src/features/command/service.ts:75-77 | A finished call leaves no command pending whose publication the broker confirmed to it |
| `CommandOutcomes.OutcomeHasItsCause` | apps/api/src/features/command/service.ts:50-228 | Over every run, a call ends with an outcome exactly when one of its statements met its cause: the device missing, not enrolled, blocked or offline at the check, missing at the insert, its command succeeded or failed at a read, given up, abandoned, published and recorded |
| `CommandOutcomes.AnswerEndsTheWait` | apps/api/src/features/command/service.ts:203-217 | Whichever read of a refresh finds its command succeeded or failed, the refresh ends with that answer and its error |
| `CommandOutcomes.LastRead` | apps/api/src/features/command/service.ts:203-217 | A refresh that gave up had read the command once more and found no answer, and from that read on only checked its deadline and, once it was over, gave up |
| `CommandOutcomes.ReadsDecide` | apps/api/src/features/command/service.ts:203-217 | However a call ended, its end is what its reads found: the first answer read, or none up to the deadline |
| `CommandOutcomes.RefreshFollowsItsBroker` | apps/api/src/features/command/service.ts:113-119 | A refresh past its insert made one publication; it ends in 503 exactly when the broker did not take it |
| `CommandGuarantees.RowsAreConsistent` | apps/api/src/features/command/repository.ts:65-130 | In every reachable state a row's dates agree with its status, an expired row with an ack date is a refresh, and rows only move forward |
| `CommandGuarantees.StatusAgreesWithBroker` | apps/api/src/features/command/service.ts:113-117 | A sent command was confirmed by the broker; a pending one was not, except to a call that is about to record it |
| `CommandGuarantees.EndedRefreshIsSettled` | apps/api/src/features/command/service.ts:100-120 | However a refresh ends, its command is completed or deleted from then on, no later select delivers it, and a success stays a success |
| `CommandGuarantees.SweepPublishesItsListing` | apps/api/src/features/command/service.ts:192-200 | A finished redelivery or flush, interleaved with anything, published each once and oldest first exactly the commands its select is after at one instant: a device's pending and sent ones, or the pending ones of the devices online, that have not run out |
| `CommandGuarantees.SweepReachesTheUnanswered` | apps/api/src/features/command/repository.ts:38-48 | What a redelivery reaches, told by the history of each command |
| `CommandGuarantees.FlushReachesTheOnline` | apps/api/src/features/command/repository.ts:50-62 | What a flush reaches, told by the history of each command and the presence of its device at the select |
| `CommandGuarantees.PresenceFollowsItsMessage` | apps/api/src/features/device/repository.ts:123-128 | In every run, a device is online as its status message said until something else writes its row, and the message changes no other column |
| `CommandGuarantees.CommandsHaveTheirDevice` | apps/api/src/drizzle/schemas/command-schema.ts:22-24 | In every reachable state, a command's device is in the table |
| `CommandGuarantees.ConfirmedByFinishedCall` | apps/api/src/features/command/service.ts:195-199 | A publication confirmed to a finished call leaves its command not pending, then and ever after |
| `CommandSweeps.SweepAlone` | apps/api/src/features/command/service.ts:134-142 | A sweep with nothing else running, under any pattern of broker failures and of delays between its statements: the state it leaves |
| `CommandSweeps.RedeliverAlone` | apps/api/src/features/command/service.ts:192-200 | A redelivery alone, with any failures and delays: a listed command the broker took ends sent, from its turn on, the others keep their row; a command overdue at the start expires, one that runs out before the select is neither expired nor listed; no other device's row changes |
| `CommandTiming.ReachableTiming` | apps/api/src/features/command/service.ts:106-119 | In every reachable state, a command a refresh is working on expires at most 20 s after its creation, only its own run-out expiry can have expired it, and no two calls work on the same one |
| `CommandTiming.WaitIsNotCutShort` | apps/api/src/features/command/service.ts:203-217 | Where the deadline comes no later than the expiry, the wait began at most 5 s after the creation, and the command cannot expire while it is waited for |
| `CommandDurations.WaitFollowsItsStatements` | apps/api/src/features/command/service.ts:106-119 | In every run, the deadline is the creation plus the time the call spent publishing, recording and starting to wait plus 15 s; it comes no later than the expiry exactly when that time and the time of the insert add up to at most 5 s, and then the command cannot expire while it is waited for |
| `CommandDurations.PublicationLeavesTimeToWait` | apps/api/src/features/command/service.ts:22-24 | In every run in which the store answers at once, the insert included, and the publication keeps its 5 s bound, the wait is never cut short |
| `CommandDurations.RefreshIsTimed` | apps/api/src/features/command/service.ts:100-120 | In every run, the clock, the creation, the expiry and the deadline of the command follow from the time the call spent at each statement |
| `CommandDurations.RefreshLasts` | apps/api/src/features/command/service.ts:100-120 | From its first statement to the one it ends with, a refresh lasts the sum of what it spent at each |
| `CommandDurations.TimedOutRefreshLasts` | apps/api/src/features/device/service.ts:342-348 | A refresh that times out lasts what it spent before its wait plus its polling, at least 15 s; it keeps within `REFRESH_TIMEOUT_MS` exactly when nothing before the wait took any time and the last turn fell on the deadline |
| `CommandDurations.BulkRefreshLasts` | apps/api/src/features/device/service.ts:342-348 | In every run, a bulk refresh lasts as long as its slowest refresh spent at all its statements, whatever the outcomes; it keeps within `REFRESH_TIMEOUT_MS` exactly when each of them did |
| `CommandWitnesses.WaitIsReached` | apps/api/src/features/command/service.ts:100-119 | For any time the broker and the store take, a run from a boot in which the refresh waits for its answer, state by state |
| `CommandWitnesses.ARefreshIsCutShort` | apps/api/src/features/command/service.ts:203-217 | With more than 5 s between the computing of the expiry and the wait, spent inserting, publishing or starting, a run from a boot in which the command expires before the deadline of the refresh that waits for it |
| `CommandWitnesses.ASlowInsertCutsShort` | apps/api/src/features/command/service.ts:106-119 | The same from the insert alone: it takes 6 s, nothing else takes any time, and the command expires before the deadline |
| `CommandWitnesses.ARefreshOutlastsItsTimeout` | apps/api/src/features/device/service.ts:342-348 | A run from a boot in which a refresh lasts 15 s plus its insert and its publication, up to 20 s with a store that answers at once |
| `CommandWitnesses.AnAcknowledgedRefreshExpires` | apps/api/src/drizzle/schemas/command-schema.ts:6-13 | A run from a boot in which a command acknowledged 20 s before its expiry ends expired |
| `CommandTiming.LateWaitCanBeCutShort` | apps/api/src/features/command/repository.ts:121-130 | From any state in which an unanswered command runs out before the deadline of the refresh that waits for it, time and one flush expire it before that deadline |
| `BulkRefresh.ReportIsTrue` | apps/api/src/features/device/service.ts:350-364 | In any company, a report of a bulk refresh is true of its device: refused means nothing was sent, otherwise at most one command was, to that device, and it is over |
| `BulkRefresh.ReportHasItsCause` | apps/api/src/features/device/service.ts:350-364 | A device gets a report exactly when a step of its refresh met the cause: missing, not enrolled, blocked or offline at the check, succeeded at a read, given up; anything else is a failure |
| `BulkRefresh.EveryReportIsTrue` | apps/api/src/features/device/service.ts:346-348 | The answer has one report per id, in the order of the request, repetitions included; each is true of its device and has its cause in the run |
| `BulkRefresh.RefreshServesItsDevice` | apps/api/src/features/command/service.ts:100-120 | The command a refresh works on is for the device it was asked about, through every interleaving |
| `CommandRepositories.CommandRepository.Create` | apps/api/src/features/command/repository.ts:13-21 | Inserts the row with the device, kind, payload and expiry given, created now and otherwise blank, or is refused without a device; the whole table after |
| `CommandRepositories.CommandRepository.FindById` | apps/api/src/features/command/repository.ts:23-26 | The row, exactly when there is one |
| `CommandRepositories.CommandRepository.FindDeliverable` | apps/api/src/features/command/repository.ts:38-48 | Lists exactly the device's pending and sent commands that have not run out, each once, oldest first |
| `CommandRepositories.CommandRepository.FindPendingForOnlineDevices` | apps/api/src/features/command/repository.ts:51-62 | Lists exactly the pending commands that have not run out and whose device is online, each once, oldest first |
| `CommandRepositories.CommandRepository.OldestFirst` | apps/api/src/features/command/repository.ts:47-61 | Sorting a selection by creation date lists it exactly, each row once |
| `CommandRepositories.CommandRepository.MarkSent` | apps/api/src/features/command/repository.ts:65-72 | Only a pending command becomes sent, with the date, and only then a row comes back |
| `CommandRepositories.CommandRepository.ApplyAck` | apps/api/src/features/command/repository.ts:79-105 | The statement the closed form reasons about: scoped to the device, from the allowed statuses, keeping the first ack date |
| `CommandRepositories.CommandRepository.Expire` | apps/api/src/features/command/repository.ts:111-119 | Gives up on an uncompleted command and leaves a completed one alone |
| `CommandRepositories.CommandRepository.ExpireOverdue` | apps/api/src/features/command/repository.ts:121-130 | Expires the unanswered commands in scope that ran out, and no other |
| `CommandRepositories.CommandRepository.SetPresence` | apps/api/src/features/device/repository.ts:123-128 | Sets the presence of the device, if it exists |
| `CommandGate.EveryCommandWasAllowed` | apps/api/src/features/command/service.ts:50-63 | Every row of the table was inserted by a call that, earlier in the run, found its device present, enrolled and not blocked, and for a refresh online; any other row is of a kind an admin may create |
| `CommandGate.RowWasInserted` | apps/api/src/features/command/repository.ts:13-21 | Every row was inserted, blank, by a create or a refresh of its device, kind, payload and expiry |
| `CommandGate.RowHoldsItsRequest` | apps/api/src/features/command/service.ts:65-79 | Over every run, each row holds the device, kind and payload of the request that led to its insert ("{}" for a refresh), was created at the insert, and expires the lifetime of the request after an instant between the two |
| `CommandServices.CommandService.Create` | apps/api/src/features/command/service.ts:65-79 | Interleaved with anything: refused for its cause and nothing published, or one command published once, not pending if the broker took it; the row and the answer hold the device, kind and payload asked for, the date of the insert, and an expiry that counts from a clock read between the call and the insert |
| `CommandServices.CommandService.RefreshDevice` | apps/api/src/features/command/service.ts:100-120 | Interleaved with anything: ends with the first answer its reads found, or without one after its deadline; every outcome has its cause, 503 the broker's refusal; its command is settled as the outcome says, published once, for the device asked, after at most 31 reads |
| `CommandServices.CommandService.WaitForCompletion` | apps/api/src/features/command/service.ts:203-217 | Ends with the first answer a read found, or gives up no sooner than 15 s after it began, its last read having found none; 1 to 31 reads |
| `CommandServices.CommandService.HandleStatus` | apps/api/src/features/command/service.ts:144-156 | A device that comes online is sent, once each and oldest first, its pending and sent commands that have not run out at one instant, and nothing confirmed stays pending; one that goes offline is marked so and sent nothing |
| `CommandServices.CommandService.HandleAck` | apps/api/src/features/command/service.ts:158-178 | An ack that is taken leaves the device's command with its status, result, error and dates; one that is ignored found it gone, another device's, or past it; either way it is neither pending nor sent |
| `CommandServices.CommandService.FlushPendingForOnlineDevices` | apps/api/src/features/command/service.ts:134-142 | Publishes, once each and oldest first, exactly the pending commands of the devices online that have not run out at one instant; nothing confirmed stays pending |
| `CommandServices.CommandService.Sweep` | apps/api/src/features/command/service.ts:192-200 | The shared body of redelivery and flush, with the same guarantee |
| `CommandServices.CommandService.PublishCommand` | apps/api/src/features/command/service.ts:219-227 | A publication moves the call on according to the broker's answer |
| `CommandServices.CommandService.MarkCommandSent` | apps/api/src/features/command/service.ts:75-77 | After recording, the command is not pending |
| `Mqtt.PublishJson` | apps/api/src/lib/mqtt.ts:97-114 | The answer comes within 5 s; a broker that answers sooner, while connected, is believed at once; `true` means it accepted while connected |
| `Mqtt.TopicRoundTrip` | apps/api/src/lib/mqtt.ts:16-21 | The parser accepts exactly the device topics and finds the device and kind they were made from |
| `Mqtt.CommandsAreNotMessages` | apps/api/src/lib/mqtt.ts:7-12 | The topic commands are published on never parses as a device message |
| `Mqtt.CommandsReachOneDevice` | apps/api/src/lib/mqtt.ts:7-12 | Two devices never share a topic for their commands |
| `OtpStore.TableRefinesMap` | apps/api/src/features/enrollment/repositories.ts:47-77 | Issue and consume on the table answer and act as on a map from pending codes to expiries |
| `OtpStore.ConsumableOrIssuable` | apps/api/src/features/enrollment/repositories.ts:55-74 | At any instant a code can be consumed or issued, never both and never neither |
| `OtpStore.OtherCodes` | apps/api/src/features/enrollment/repositories.ts:47-77 | An operation on one code changes no other code |
| `OtpStore.StepKeepsUnique` | apps/api/src/drizzle/schemas/device-schema.ts:49-51 | At most one unconsumed row per code, after every operation |
| `OtpRuns.ConsumptionFollowsIssue` | apps/api/src/features/enrollment/repositories.ts:66-77 | Over whole runs, a successful consumption answers the issue that last touched its code, before that issue's expiry |
| `OtpRuns.ConsumptionsAnswerDistinctIssues` | apps/api/src/features/enrollment/repositories.ts:61-77 | Two consumptions answer two different issues: a code works once |
| `OtpRuns.PendingWasIssued` | apps/api/src/features/enrollment/repositories.ts:47-59 | A pending code has the expiry of the last operation that touched it, an issue |
| `OtpRuns.IssueIsRefused` | apps/api/src/features/enrollment/repositories.ts:47-59 | Over whole runs, an issue is refused exactly while the last issue that touched its code has not run out |
| `OtpRuns.CodeIsIssuedTwice` | apps/api/src/features/enrollment/service.ts:33-51 | Any code can be issued twice: once it ran out, or once it was used |
| `OtpRuns.TableIsConserved` | apps/api/src/features/enrollment/repositories.ts:47-77 | Rows are successful consumptions plus pending codes, and the pending codes are at most a million |
| `OtpCodes.RenderedDraw` | apps/api/src/features/enrollment/utils/generators.ts:85 | Every draw renders as a six-digit code that gives the draw back |
| `OtpCodes.EveryCodeIsDrawn` | apps/api/src/features/enrollment/utils/generators.ts:85 | Every six-digit code is the rendering of exactly one draw |
| `OtpCodes.AtMostAMillion` | apps/api/src/features/enrollment/service.ts:14-19 | There are at most a million codes |
| `OtpRepositories.OtpRepository.Issue` | apps/api/src/features/enrollment/repositories.ts:47-59 | Inserts, recycles or refuses, as the map of pending codes says |
| `OtpRepositories.OtpRepository.Consume` | apps/api/src/features/enrollment/repositories.ts:66-77 | Takes a usable code out of the map, once, and otherwise writes nothing |
| `EnrollmentServices.EnrollmentService.GenerateOTP` | apps/api/src/features/enrollment/service.ts:34-51 | Whatever other calls do between its draws: a returned code had no live holder at issue and no other code changed with it; failure means ten refused draws, and an unchanged table if nothing else ran |
| `OtpDraws.FailureAloneWritesNothing` | apps/api/src/features/enrollment/service.ts:38-50 | A call that nothing interrupted and whose every draw was refused leaves the table as it was |
| `EnrollmentServices.EnrollmentService.GenerateOtpCode` | apps/api/src/features/enrollment/utils/generators.ts:85 | Six digits |
| `EnrollmentServices.EnrollmentService.VerifyOTP` | apps/api/src/features/enrollment/service.ts:57-64 | Exchanges exactly a code consumable at the time for a challenge usable until its expiry, whatever other calls do between its two statements; the code works once, no other code or challenge is touched; otherwise nothing is written |
| `EnrollmentServices.EnrollmentService.GenerateChallenge` | apps/api/src/features/enrollment/service.ts:67-71 | The new challenge is usable up to its expiry and refused past it; every other challenge is as usable as it was, at every instant |
| `EnrollmentServices.EnrollmentService.AssertChallengeValid` | apps/api/src/features/enrollment/service.ts:74-86 | Refuses an unknown, consumed or run-out challenge, and no other |
| `EnrollmentServices.EnrollmentService.ConsumeChallenge` | apps/api/src/features/enrollment/service.ts:88-91 | The challenge is refused at every instant from then on; every other challenge is as usable as it was |
| `EnrollmentServices.ChallengeRepository.MarkConsumed` | apps/api/src/features/enrollment/repositories.ts:25-28 | Whatever state the challenge was in, it is refused as consumed at every instant from then on, and no other challenge is refused or accepted differently |
| `Enrollment.StepKeepsSound` | apps/api/src/drizzle/schemas/device-schema.ts:74 | Android ids stay unique through enrollments, edits, deletions and heartbeats |
| `EnrollmentRuns.KeyIsPinned` | apps/api/src/features/device/repository.ts:87-121 | Over whole runs a device row keeps the key it enrolled with, and its android id changes only by an admin edit |
| `EnrollmentRuns.DeletedIsGone` | apps/api/src/features/device/repository.ts:329-335 | A deleted device is never in the table again |
| `EnrollmentRuns.PinnedKeyRefusesOthers` | apps/api/src/features/device/service.ts:121-136 | While a device holds an android id, nobody enrolls under it with another key |
| `EnrollmentRuns.TwoKeysNeedAnAdmin` | apps/api/src/features/device/service.ts:119-178 | If one android id enrolls with two keys, then in between an admin deleted the first device or edited its android id |
| `EnrollmentRuns.ConsumedMeansUsed` | apps/api/src/features/device/service.ts:84-178 | A challenge is consumed exactly when a committed enrollment used it |
| `EnrollmentRuns.ChallengeIsUsedOnce` | apps/api/src/features/enrollment/service.ts:74-91 | No two committed enrollments use the same challenge |
| `EnrollmentRuns.EnrollmentUsesALiveChallenge` | apps/api/src/features/enrollment/service.ts:74-86 | A committed enrollment used a challenge issued earlier and not expired at the time |
| `EnrollmentRuns.EnrollmentsUseDistinctChallenges` | apps/api/src/features/device/service.ts:84-178 | Committed enrollments map injectively to challenges |
| `EnrollmentRuns.EnrollsWhenAdmitted` | apps/api/src/features/device/service.ts:84-178 | An enrollment succeeds exactly when its challenge is usable, it is signed, and its android id is not given, free, or non-empty and pinned to the key it presents |
| `EnrollmentRuns.RefusalHasItsCause` | apps/api/src/features/device/service.ts:84-178 | Which refusal for which cause: challenge unknown, consumed or run out, bad signature, another key, android id taken; the causes exclude one another |
| `EnrollmentRuns.RejectionRollsBack` | apps/api/src/features/device/service.ts:84-178 | A rejected attempt leaves every table as it was, and any later attempt is admitted exactly as if it had not been made |
| `EnrollmentRuns.RejectionsLeaveNoTrace` | apps/api/src/features/device/service.ts:84-178 | However many attempts of a run were rejected, its tables are those of the run without them |
| `EnrollmentRuns.ChallengeIsUsable` | apps/api/src/features/enrollment/service.ts:74-91 | Over whole runs, a challenge is usable exactly when it was issued, has not run out and no committed enrollment used it, whatever was rejected meanwhile |
| `EnrollmentRuns.EnrolledRow` | apps/api/src/features/device/service.ts:133-171 | A committed enrollment leaves an enrolled row with the key and android id of its request |
| `EnrollmentRows.RowAfterEnrollment` | apps/api/src/features/device/repository.ts:29-121 | Every column a committed enrollment leaves: what the request reports; of a known device, its android id, presence, block, and the name and brand not given; a new one offline and not blocked; its challenge stamped; every other row and challenge untouched |
| `EnrollmentRows.RowAfterEdit` | apps/api/src/features/device/service.ts:302-326 | An admin edit changes what it gives and nothing else; refused, nothing |
| `EnrollmentRows.NameIsTheLastGiven` | apps/api/src/features/device/repository.ts:80-121 | Over whole runs, a device has the name given to it last: what an admin typed outlives every enrollment that gives none |
| `DeviceServices.DeviceService.Create` | apps/api/src/features/device/service.ts:83-186 | The transaction, statement by statement with its rollback, is the atomic enrollment step |
| `DeviceServices.DeviceService.Update` | apps/api/src/features/device/service.ts:302-326 | An admin edit, its 404 and its 409, each exactly when it applies; the name and the android id after |
| `DeviceServices.DeviceRepository.CreateDevice` | apps/api/src/features/device/repository.ts:29-68 | Inserts unless another row has the android id |
| `DeviceServices.DeviceRepository.FindByAndroidId` | apps/api/src/features/device/repository.ts:75-78 | A device with the android id, exactly when there is one |
| `DeviceServices.DeviceRepository.ReEnrollDevice` | apps/api/src/features/device/repository.ts:87-121 | Refreshes the row without touching its key or android id |
| `DeviceServices.DeviceRepository.Block` | apps/api/src/features/device/repository.ts:260-265 | Blocks the listed ids; a device already blocked keeps its date |
| `DeviceServices.DeviceRepository.Unblock` | apps/api/src/features/device/repository.ts:268-273 | Unblocks the listed ids and no other |
| `DeviceServices.DeviceRepository.Delete` | apps/api/src/features/device/repository.ts:329-335 | Deletes the row, and says whether there was one |
| `DeviceServices.DeviceRepository.DeleteMany` | apps/api/src/features/device/repository.ts:337-351 | Every existing id is deleted and reported once; successes and failures together are the request, repetitions included |
| `LikeSearch.SearchIsSubstring` | apps/api/src/features/paginations/services.ts:11-15 | The escaped pattern is well formed and matches exactly the texts that contain what was typed |
| `LikeSearch.SearchIgnoresCase` | apps/api/src/features/paginations/services.ts:14-15 | The same up to character folding |
| `LikeSearch.EscapedMatchesItself` | apps/api/src/features/paginations/services.ts:12 | Escaped text matches itself and nothing else, whatever pattern follows |
| `LikeSearch.EscapeCommutesWithFolding` | apps/api/src/features/paginations/services.ts:12 | Folding the escaped pattern is escaping the folded text |
| `LikeSearch.RowPassesSearch` | apps/api/src/features/paginations/services.ts:14-15 | A row passes exactly when nothing was typed, there is no column to search, or some column contains what was typed up to case; NULL never does |
| `Pagination.OrderIsTotal` | apps/api/src/features/paginations/domain/interface.ts:45-46 | The tie breaker makes the order strict and total |
| `Pagination.OrderIsTransitive` | apps/api/src/features/paginations/services.ts:22-31 | The order is transitive, whatever columns and directions it mixes |
| `Pagination.BeforeIsSorted` | apps/api/src/features/paginations/services.ts:22-31 | One row comes before another exactly when the first item they differ in says so (ascending: the smaller first, NULL last; descending: NULL, then the larger) or, where none does, its id is smaller |
| `Pagination.AnswerIsSorted` | apps/api/src/features/paginations/services.ts:31 | Any answer of the query is in that order, by the items asked for or, without any, by the default ones |
| `Pagination.AnswerIsUnique` | apps/api/src/features/paginations/services.ts:31 | Any two executions of the query list the rows alike |
| `Pagination.PagesPartitionTheResult` | apps/api/src/features/paginations/services.ts:26-42 | Pages 1 to `totalPages`, each fetched on its own, put end to end are the whole result, each row once, in the order asked for |
| `Pagination.PageSizes` | apps/api/src/features/paginations/services.ts:32-41 | Every page but the last is full, the last is not empty, past it there is nothing |
| `SortParam.SortRoundTrip` | apps/web/components/data-table/data-table-search-params.ts:8-20 | A sort survives the URL exactly when it is not empty, no id has a comma, and an ascending id is not empty and does not start with `-` |
| `SortParam.ParseIsStable` | apps/web/components/data-table/data-table-search-params.ts:8-20 | For every string that parses, printing and parsing again changes nothing |
| `SortParam.ParsedIsPrintable` | apps/web/components/data-table/data-table-search-params.ts:11-20 | Whatever is parsed can be printed back |
| `SortParam.ApiReadsTheWeb` | apps/api/src/features/paginations/dto/schema.ts:23-45 | The API reads back the sort the web wrote exactly when no token has a blank at its ends and every column is one it sorts by; an unknown column refuses the query |
| `AdbFraming.DecodeAll` | apps/web/e2e/support/webusb.ts:40-53 | The encoding of any packets decodes to exactly those packets, command, both sockets and payload, with nothing left |
| `AdbFraming.HeaderReads` | apps/web/e2e/support/webusb.ts:44-47 | The header reads back as the command, both sockets and the length it was given |
| `AdbFraming.HeaderChecks` | apps/web/e2e/support/webusb.ts:48-49 | The last two fields are the sum of the payload's bytes modulo 2^32 and the command with every bit inverted |
| `AdbFraming.ChecksumAdds` | apps/web/e2e/support/webusb.ts:48 | The checksum is the sum of the bytes |
| `AdbFraming.DecodeConcat` | apps/web/e2e/support/webusb.ts:103-112 | Decoding in two goes, the residue of the first before the second, is decoding at once |
| `AdbFraming.ChunkingIsInvisible` | apps/web/e2e/support/webusb.ts:101-112 | Any cut of any bytes yields the same packets and leaves the same residue |
| `AdbFraming.ReassemblyIsExact` | apps/web/e2e/support/webusb.ts:40-112 | Encoded packets cut anyhow come out exactly, in order, without residue, and no whole packet is ever held back |
| `AdbFraming.U32RoundTrip` | apps/web/e2e/support/webusb.ts:44-49 | The little-endian field reads back as the number written, modulo 2^32 |
| `AdbServices.ArgumentsRoundTrip` | apps/web/e2e/support/webusb.ts:66-67 | The log shows the start arguments as they were given |
| `AdbServices.LeftmostMatch` | apps/web/e2e/support/webusb.ts:79 | The leftmost `-S` option with a number decides the size; without one there is none |
| `AdbServices.InstallSizeIsRead` | apps/web/e2e/support/webusb.ts:79-81 | A size written in decimal in the service text is read back |
| `AdbDevice.ChunksDoNotMatter` | apps/web/e2e/support/webusb.ts:58-112 | Cutting the bytes differently changes nothing the daemon does or keeps |
| `AdbDevice.EncodedPacketsAreHandled` | apps/web/e2e/support/webusb.ts:40-112 | Whatever the cut, the daemon handles exactly the packets encoded |
| `AdbDevice.EveryPacketIsAnswered` | apps/web/e2e/support/webusb.ts:58-98 | Each CNXN, OPEN and WRTE is answered at once by one packet, in order, that depends on it alone; other commands are not answered |
| `AdbDevice.InstallsFollowHistory` | apps/web/e2e/support/webusb.ts:79-91 | An install is in progress exactly from the packet that opened it to the write that fills it, with the bytes written in between counted |
| `AdbDevice.FinishedInstallIsReported` | apps/web/e2e/support/webusb.ts:84-97 | The write that fills an install, and no other packet, logs it with the bytes received and schedules its success |
| `AdbDevice.AgentStartIsReported` | apps/web/e2e/support/webusb.ts:64-78 | A start of the agent logs its arguments as they were given and schedules its output, and touches no install |
| `AdbDevice.TextIsRead` | apps/web/e2e/support/webusb.ts:41-64 | ASCII text goes over the wire and back |
| `AdbDevice.InstallsAreConserved` | apps/web/e2e/support/webusb.ts:57-98 | Installs opened are those answered once, those in progress and those opened over |
| `FakeDevices.BrowserReadsWhatWasSent` | apps/web/e2e/support/webusb.ts:34-53 | What the browser has read decodes to a prefix of the packets sent, whole, and to all of them once nothing is left |
| `FakeDevices.FakeDevice.Send` | apps/web/e2e/support/webusb.ts:40-53 | One packet becomes a transfer of 24 bytes and, if it has a payload, another; what the reads decode to is what was sent (`ReadsDecode`) |
| `FakeDevices.FakeDevice.Flush` | apps/web/e2e/support/webusb.ts:34-39 | A waiting read gets the oldest transfer; nothing is lost or reordered |
| `FakeDevices.FakeDevice.TransferIn` | apps/web/e2e/support/webusb.ts:149-153 | A read is answered at once if there is a transfer, and waits otherwise |
| `FakeDevices.FakeDevice.Handle` | apps/web/e2e/support/webusb.ts:58-99 | The daemon's step for one packet |
| `FakeDevices.FakeDevice.Receive` | apps/web/e2e/support/webusb.ts:103-112 | The loop handles exactly the whole packets the bytes hold and keeps the rest, less than a packet |
| `FakeDevices.FakeDevice.Fire` | apps/web/e2e/support/webusb.ts:94-97 | A timer sends its output, then closes the socket |
| `FakeDevices.FakeDevice.ReadsDecode` | apps/web/e2e/support/webusb.ts:34-53 | In every state of the device, the browser's reads decode to the packets sent, sockets included |
| `TelemetryRuns.LastWriterWins` | apps/api/src/features/device/repository.ts:177-237 | Where nobody writes a field, or deletes the device, between the read and the write of a patch of it, a stored field is the last value written to it since the device was last deleted, over any pushes, patches and deletions |
| `TelemetryRuns.LastWriterWinsExactly` | apps/api/src/features/device/repository.ts:177-237 | Over every interleaving of pushes, deletions and of the reads and writes of patches, a field is at every moment the last value written to it exactly when no patch of its group puts back a value that changed since it read it |
| `TelemetryRuns.UndisturbedIsLastWritten` | apps/api/src/features/device/repository.ts:201-237 | Patches between whose read and write nobody writes the field or deletes the device put back nothing stale |
| `TelemetryRuns.LostUpdate` | apps/api/src/features/device/repository.ts:201-237 | Two patches of one group that read the same row: the field the first wrote is back at its old value |
| `TelemetryRuns.NeverWrittenIsDefault` | apps/api/src/drizzle/schemas/device-telemetry-schema.ts:37-40 | In the same runs, a field nobody wrote since the device was last deleted is zero, not charging, of unknown health; network fields are absent |
| `Telemetry.PatchesCompose` | apps/api/src/features/device/repository.ts:201-237 | Patching twice is patching once with the right-biased merge, whether or not the row existed |
| `TelemetryRuns.WriteOneField` | apps/api/src/features/device/repository.ts:177-237 | One write changes the fields it gives, creates the others at their defaults with the row, and rewrites the rest of a group it patches with what it read |
| `TelemetryRuns.RowExistsOnceWritten` | apps/api/src/drizzle/schemas/device-telemetry-schema.ts:54-55 | A device has a telemetry row exactly when a push, or a patch that had found no row, came for it since it was last deleted |
| `TelemetryRepositories.TelemetryRepository.UpsertTelemetry` | apps/api/src/features/device/repository.ts:177-191 | A push replaces the device's row |
| `TelemetryRepositories.TelemetryRepository.PatchTelemetry` | apps/api/src/features/device/repository.ts:201-237 | Whatever other calls write between its read and its write: the whole table after, the insert refused exactly when the row exists by then; with nothing in between, one merge over the row or the defaults |
| `FleetSummary.StatusesPartitionTheFleet` | apps/api/src/drizzle/schemas/device-overview-view.ts:52-72 | Each listed device has exactly one status |
| `FleetSummary.WhoIsCounted` | apps/api/src/drizzle/schemas/device-overview-view.ts:52-62 | Each class of devices, told without the order of the cases; a device runs a command exactly while one of its own is neither completed nor past its expiry |
| `FleetSummary.GroupingExists` | apps/api/src/features/device/repository.ts:294-299 | Whatever the store, the grouped query has an answer: one row per status some device has, with the size of its class |
| `FleetSummary.Summary` | apps/api/src/features/device/service.ts:370-380 | Every status is present, each count is the size of its class, the total is the number of listed devices |
| `FleetSummary.FillCounts` | apps/api/src/features/device/service.ts:373-376 | Zeros, filled with the rows of the query |

## Assumptions

- Store calls do not throw, except for the foreign key of an insert and the unique constraints on android ids, challenges
  and pending codes, which are modelled.
- Application and database share one clock that never goes back; a statement compares with it at the instant it takes
  effect.
- Database ids are never drawn twice; a challenge's nonce is not in the table when it is created.
- A sleep of 500 ms lasts at least that long.
- Rows with the same `created_at` come back from a select in any order.
- The name of an enrollment is a text or absent: its schema reads null and blank as absent.
- Character folding (ILIKE) leaves `%`, `_` and the backslash alone and maps nothing to them.
- How two values of a sortable column compare is a rank; NULL comes last in ascending order.
- Text in ADB services is ASCII: any other byte reads as the replacement character.

## Left out

- What a publication carries: the topic of the command's device, and its id, kind and payload, all fixed when the row is
  created. The log holds the command's id.
- The MQTT connection, subscriptions and reconnection; the parsing of message bodies (a malformed message changes nothing).
- `handleScreen`, heartbeats' own columns, `updatedAt` columns, `listByDevice`.
- Cryptography: a valid signature is an uninterpreted predicate of the request; codes, nonces and ids are arbitrary draws.
- The order in which enrollment transactions could interleave: each one is a single step.
- Device columns that are only stored (serial, manufacturer, release, agent version and so on) follow the pattern of
  `model` and `brand` and are not repeated.
- The `COMMAND_TTL_SECONDS`, OTP and challenge lifetimes are parameters.
- Schema validation beyond the facts used: page and limit at least 1, admin-created kinds, complete inventories.
- The filter conditions of a list: `where` is the set of rows it keeps.
- Android versions, brands and models in the fleet summary.
- FakeDevices.FakeDevice.Fire: the order in which timers fall due is not modelled; any pending timer may fire.
- AdbServices.InstallSizeIsRead: sizes beyond 2^53, which JavaScript rounds, are exact here.
- Telemetry writes for a device that does not exist (the foreign key refuses them).
- Closing, unplugging and reopening the WebUSB stub (a pending read is then rejected), and its modes in which the user
  cancels, the device is busy or the browser has no WebUSB.
- Provisioning payloads, QR codes, APK parsing, the dashboard and the desktop tool.
