# A verified model of the AdRouter desktop agent

This Dafny project models the parts of the desktop agent (`adrouterAgent`) in which an algorithm or
a state machine carries a guarantee, and proves that guarantee for all inputs, all runs or all
reachable states. `dafny verify dfyconfig.toml` checks everything.

Where the original changes state step by step, the model is a class or a method with loops, proved
against a specification made of functions; the properties are then lemmas about that specification.

| component | files |
|---|---|
| Line diff of the review pane | `TextLines.dfy`, `LineDiff.dfy`, `LineEndings.dfy`, `ChangedRows.dfy` |
| Runtime scheduler | `SchedulerSpec.dfy`, `RuntimeScheduler.dfy` |
| Runtime supervisor | `SupervisorSpec.dfy`, `SupervisorLeaks.dfy`, `SupervisorExceptions.dfy`, `SupervisorStops.dfy`, `RuntimeSupervisor.dfy` |
| Admission of local requests, export handles | `Admission.dfy`, `Exports.dfy`, `LocalRpcServer.dfy` |
| Journal, session index, checkpoints, forks | `Json.dfy`, `SessionProjection.dfy`, `JournalSpec.dfy`, `SessionFork.dfy`, `JournalContents.dfy`, `AppDatabase.dfy` |
| Approvals | `Approvals.dfy` |
| File baselines and reverts | `Baselines.dfy` |
| Context compaction | `CompactionSpec.dfy`, `Compaction.dfy` |
| Globs, shell text, NDJSON, CLI import | `GlobRegex.dfy`, `ShellCommand.dfy`, `Ndjson.dfy`, `CliBranch.dfy` |
| Structured delete, move and restore | `FileTree.dfy`, `RecoverySpec.dfy`, `RecoveryRuns.dfy`, `RecoveryExact.dfy`, `StructuredFiles.dfy` |

`Common.dfy` holds what they share.

## What the proofs found

Some guarantees a reader would expect do not hold of the code as it stands. The model keeps the code,
names the failing case, and proves exactly when the guarantee holds.

- **Identical texts can show a full diff.** Over 4,000,000 table cells (two texts of more than 2,000
  lines each, say) `changedMiddle` removes everything and adds everything. The edit script is minimal
  exactly when the table limit is kept or the texts share no line (`ChangedMiddle`;
  `LongTextExample` is a case), and the pane is empty exactly when the texts have the same lines, however
  each is ended, *and* the limit is kept (`BuildChangedLineDiff`).
- **A start rejected after its fork frees the slot of a living child.** The ten-second readiness
  timeout rejects `launch` after `utilityProcess.fork`; the scheduler then drops the lease at once.
  `LateRejectionRun` is a run with one slot and two living writers of one workspace.
  `LateRejectionExact` says such a step is safe exactly when the child has already exited.
- **Overlapping starts of one thread can lose a slot.** Two `start` calls of one thread may both pass
  the check before their leases are resolved; the second launch then replaces the first runtime, whose
  exit nobody handles. Over any run, slots stay accounted for exactly as long as every exit handler
  finds its runtime closed or still its thread's current one (`RunsLeakExactly`, `RunsAccountExactly`).
  In `OverlappingStartsRun` one does not, and the slot it leaves behind stays lost until a late
  rejection of the same start (`LostExact`, `StaysLost`). It takes a scheduler built with two to four
  slots: `configuredRuntimeWorkers` always yields one, and with one slot, without late rejections,
  nothing is lost (`RunsDoNotLeak`).
- **`**` in a glob does not cross a line terminator**, because it becomes `.*` without the dotAll flag.
  Emitted expression and intended meaning agree on a string, for every glob, exactly when the string
  contains no line terminator (`TwoStarsExact`; `LineFeedExample` is a case), and for a glob, on every
  string, exactly when it has no `**` (`GlobMeantExactly`).
- **A deleted file called `record.json` replaces its own recovery record**, after which no restore is
  ever offered (`LostFileExample`). A restore is offered exactly for entries with another name
  (`RestorableExactly`).
- **A failed move can leave new directories behind**, inside the source when the destination is
  (`LeftoverExample`). It loses no file (`FailureKeepsSource`). Whatever fails, nothing outside the
  vault changes exactly when the parent of the destination was there, cannot be made, or is never
  reached (`FailedMoveExact`); the source is unchanged exactly in these cases and when the destination
  is elsewhere (`FailedMoveSourceExact`).
- **The vault can exceed its 50 MiB**, because admission does not count the record: five deletes of
  about 10 MiB each are all admitted and leave 300 bytes too much (`OvershootExample`). The vault is
  within the limit after an operation exactly when there was room for payload and record
  (`WithinLimitExact`), and throughout a run exactly when that holds of each operation
  (`RunWithinExactly`). It never exceeds the limit by more than one record, and the limit of 100 files
  is kept (`VaultStaysBounded`).
- **The nonce-capacity error is unreachable** (`NonceCapacityUnreachable`), and so is the NDJSON
  parser's error for a trailing remainder: a flush empties the remainder before looking at it.
- **A compaction of a rewritten message list can keep a stale summary**, since only the last covered
  message is compared, and only by its signature (`StaleSummaryExample`). The summary covers the
  messages before the boundary exactly when it covered the earlier ones or was dropped (`CompactionCovers`).

## Assumptions

- `sha256` is injective; a digest is represented by the value it is taken of. That the digest of an
  inventory may stand for the tree is proved (`InventoryDeterminesTree`).
- A request reads the clock once, and the clock does not go back. The original reads it a second time
  in `pruneRate`.
- Random identifiers of rows, turns and operations are new each time.
- `estimateTokens` is an arbitrary number per message; budgets and what the summariser writes are
  arbitrary inputs. The verdicts of signature, key and parameter checks are inputs.
- Each database transaction is one step. A reported file mutation is delivered some time after the
  write it is about, in order.
- Strings are sequences of Unicode scalar values. Token counts are real numbers and never infinite.
- File system failures are inputs: how far an operation got and what a failed clean-up left.
- A manifest presented for a restore is the one that was offered, as its approval binding ensures.

## Model

| member | source | states |
|---|---|---|
| LineEndings.LinesOfText | adrouterAgent/src/renderer/line-diff.ts:26-33 | A text written as lines, each ended by a line feed or by a carriage return and a line feed, and a rest without an end is split into exactly those lines, with the rest unless it is empty, and a final newline exactly when it is |
| LineEndings.TextOfLines | adrouterAgent/src/renderer/line-diff.ts:26-33 | Without a carriage return before a line feed no character is lost: the lines and the final newline give back the text itself |
| LineEndings.SplitAlike | adrouterAgent/src/renderer/line-diff.ts:26-33 | Any two texts are split alike exactly when they differ only in the way their lines are ended |
| LineDiff.LcsBoundsMatching | adrouterAgent/src/renderer/line-diff.ts:46-57 | The table's recurrence is at least as large as every common subsequence, given by increasing index pairs |
| LineDiff.MatchingOfScript | adrouterAgent/src/renderer/line-diff.ts:60-87 | The lines an edit script keeps form a common subsequence of its two sides, of as many pairs as it has equal operations |
| LineDiff.KeepingLcsIsMinimal | adrouterAgent/src/renderer/line-diff.ts:46-88 | A script that keeps as many lines as the recurrence says keeps a longest common subsequence, and no script has fewer changes |
| LineDiff.KeepingNothing | adrouterAgent/src/renderer/line-diff.ts:36-45 | A script that keeps no line is minimal exactly when the two sides share no line |
| LineDiff.LongTextExample | adrouterAgent/src/renderer/line-diff.ts:36-45 | The script for a text of 2,001 equal lines against itself is not minimal |
| LineDiff.FillCell | adrouterAgent/src/renderer/line-diff.ts:48-57 | One assignment, in bounds and without overflow, makes one more cell right and spoils none |
| LineDiff.FillTable | adrouterAgent/src/renderer/line-diff.ts:46-57 | The flat table ends up holding the recurrence's value in each cell |
| LineDiff.ChangedMiddle | adrouterAgent/src/renderer/line-diff.ts:35-89 | The operations spell out both sides; within the limit they keep a longest common subsequence, and are the first such script when unchanged comes before removed and removed before added; minimal exactly when within the limit or nothing is shared |
| LineDiff.LeadStep | adrouterAgent/src/renderer/line-diff.ts:62-80 | The choice the walk makes at a cell keeps its script in front of every other shortest one, ties included |
| ChangedRows.AfterRemoval | adrouterAgent/src/renderer/line-diff.ts:107-125 | Pushing a removed line keeps rows, line numbers, patch and ellipses in agreement with the operations so far |
| ChangedRows.AfterAddition | adrouterAgent/src/renderer/line-diff.ts:107-125 | The same for an added line |
| ChangedRows.AfterEqual | adrouterAgent/src/renderer/line-diff.ts:107-113 | An unchanged line moves both numbers on and is remembered as omitted |
| ChangedRows.NothingChanged | adrouterAgent/src/renderer/line-diff.ts:35-45 | A script shows no change exactly when the line lists are equal and the limit is kept |
| ChangedRows.PaneShows | adrouterAgent/src/renderer/line-diff.ts:91-126 | Rows in agreement with a whole script are a faithful patch with ellipses exactly between separated changes |
| ChangedRows.BuildChangedLineDiff | adrouterAgent/src/renderer/line-diff.ts:91-137 | For every pair of texts: deleting removed and added line numbers leaves the same lines, each row carries the line it names, ellipses are exact; within the limit the changes shown are those of the first shortest script, in order; the pane is empty exactly when the texts differ at most in how lines are ended and the limit is kept; a closing remark tells of a final line feed in one text only; refused above 20,000 lines |
| SchedulerSpec.DrainedClosedForm | adrouterAgent/src/main/runtime-scheduler.ts:114-143 | Draining starts, up to the free slots, exactly the first tasks that share no workspace and no Git directory, one of the two writing, with an active task or one queued before; the rest stays queued in its order |
| SchedulerSpec.DrainedInv | adrouterAgent/src/main/runtime-scheduler.ts:122-143 | Draining keeps every bound and leaves only blocked tasks waiting |
| SchedulerSpec.ApplyKeepsInv | adrouterAgent/src/main/runtime-scheduler.ts:75-143 | Each of enqueue, cancel, release and start failure keeps active leases compatible and within capacity, identifiers unique, the queue at most 32, and waiting tasks blocked |
| SchedulerSpec.RunKeepsInv | adrouterAgent/src/main/runtime-scheduler.ts:59-144 | Every reachable state, for every capacity, keeps bounds and unique identifiers, and nothing waits while nothing runs |
| SchedulerSpec.RunRespectsLeases | adrouterAgent/src/main/runtime-scheduler.ts:36-37 | In every state of every run two running tasks of one workspace, or of one Git directory, both only read; while a slot is free, a waiting task has its workspace or Git directory in common with a running or earlier waiting one, and one of the two writes |
| SchedulerSpec.ApplyExact | adrouterAgent/src/main/runtime-scheduler.ts:75-143 | What each operation adds or takes away: enqueue refuses a known identifier and a queue of 32 and otherwise adds this task, cancel takes away one waiting task of the name, release and a failed start one running task, and no other task is lost, doubled or changed |
| SchedulerSpec.NoOvertaking | adrouterAgent/src/main/runtime-scheduler.ts:114-143 | In any run a task does not start while one enqueued before it, with a workspace or Git directory in common and one of the two writing, still waits |
| SchedulerSpec.EveryTaskGetsATurn | adrouterAgent/src/main/runtime-scheduler.ts:96-143 | Releasing running tasks empties the scheduler after exactly as many releases as there are tasks |
| RuntimeScheduling.RuntimeScheduler.Create | adrouterAgent/src/main/runtime-scheduler.ts:63-73 | A scheduler exists exactly for capacities 1 to 4, and starts empty |
| RuntimeScheduling.RuntimeScheduler.Enqueue | adrouterAgent/src/main/runtime-scheduler.ts:75-85 | Refuses known identifiers and a full queue, otherwise adds the task, drains, and answers whether the task now runs; what that state is like is told by RunRespectsLeases and ApplyExact |
| RuntimeScheduling.RuntimeScheduler.Cancel | adrouterAgent/src/main/runtime-scheduler.ts:87-94 | Takes a waiting task out and starts what it was blocking |
| RuntimeScheduling.RuntimeScheduler.Release | adrouterAgent/src/main/runtime-scheduler.ts:96-100 | Frees a slot and starts what it was blocking |
| RuntimeScheduling.RuntimeScheduler.StartFailed | adrouterAgent/src/main/runtime-scheduler.ts:132-139 | A rejected start callback frees the slot of its task |
| RuntimeScheduling.RuntimeScheduler.Drain | adrouterAgent/src/main/runtime-scheduler.ts:122-143 | The loop that restarts from the front of the queue terminates and gives the one-pass result |
| RuntimeScheduling.PassOver | adrouterAgent/src/main/runtime-scheduler.ts:126-128 | A task that cannot start stays unable to start for the rest of the drain, so skipping it changes nothing in the outcome |
| RuntimeScheduling.StartNext | adrouterAgent/src/main/runtime-scheduler.ts:129-140 | After starting a task the ones passed over are still stuck, so the restart finds nothing new in front |
| SupervisorSpec.NextKeepsSlots | adrouterAgent/src/main/runtime-supervisor.ts:122-294 | Every step keeps the books of starts, tickets and slots; every step other than a late rejection leaves each living child on its slot |
| SupervisorSpec.RunsAreSafe | adrouterAgent/src/main/runtime-supervisor.ts:153-205 | In every interleaving of starts, launches, stops, finishes, crashes and exits without a late rejection, two living children of one workspace or Git directory both only read, living children fit the capacity, and a child loses its slot only after it exited |
| SupervisorStops.StoppedNeverForks | adrouterAgent/src/main/runtime-supervisor.ts:278-294 | In every run, late rejections included, a start that is stopped while pending never gets a runtime afterwards; its thread is not pending right after, and without a runtime is taken up again at once |
| SupervisorStops.LaunchForksExactly | adrouterAgent/src/main/runtime-supervisor.ts:135-188 | A launch whose callback finds everything ready forks exactly when, since the lease of its start was resolved, its thread was not stopped and no other start of the thread was resolved |
| SupervisorStops.RunsKeepPending | adrouterAgent/src/main/runtime-supervisor.ts:135-151 | In every state of every run each pending entry is of a start of that thread that still waits in the queue or for its callback, and has no runtime |
| SupervisorStops.StartsExactly | adrouterAgent/src/main/runtime-supervisor.ts:122-135 | A start is taken up exactly when its thread has neither a runtime nor a pending start |
| SupervisorStops.EndsExactly | adrouterAgent/src/main/runtime-supervisor.ts:627-658 | An end, an exit or a late rejection leaves a thread without a runtime exactly when the runtime was its current one, and then closes it; the exit of one already closed changes no thread |
| SupervisorSpec.NextKeepsTidy | adrouterAgent/src/main/runtime-supervisor.ts:278-294 | Without overlapping starts, each step leaves no slot to nobody and each open runtime with its thread |
| SupervisorSpec.RunsDoNotLeak | adrouterAgent/src/main/runtime-supervisor.ts:627-658 | Without late rejections, with one slot or when no two starts of a thread overlap, the taken slots are in every state exactly those of living children and of callbacks still to run |
| SupervisorLeaks.LeakExact | adrouterAgent/src/main/runtime-supervisor.ts:196-205 | Any step, late rejections included, leaves a slot to nobody exactly when it is the exit of an open runtime that is no longer its thread's current one and still holds its slot |
| SupervisorLeaks.RunsLeakExactly | adrouterAgent/src/main/runtime-supervisor.ts:153-294 | In every run no slot is lost exactly when no step is such an exit |
| SupervisorLeaks.RunsAccountExactly | adrouterAgent/src/main/runtime-supervisor.ts:196-205 | Without late rejections, slots belong to living children and callbacks to come exactly as long as every exit handler finds its runtime closed or current |
| SupervisorLeaks.LostExact | adrouterAgent/src/main/runtime-supervisor.ts:196-205 | A lost slot comes back exactly by the late rejection of the start it was taken for |
| SupervisorLeaks.StaysLost | adrouterAgent/src/main/runtime-supervisor.ts:196-205 | Through any other steps of a run it stays lost |
| SupervisorSpec.LateRejectionExact | adrouterAgent/src/main/runtime-supervisor.ts:206-215 | A rejection after the fork keeps living children on their slots exactly when its child has exited |
| SupervisorSpec.ForkExact | adrouterAgent/src/main/runtime-supervisor.ts:166-188 | A launch keeps every open runtime its thread's current one exactly when the thread had none; otherwise it makes one whose exit nobody handles |
| SupervisorExceptions.LateRejectionRun | adrouterAgent/src/main/runtime-supervisor.ts:206-215 | A run with one slot in which two writers of one workspace live at once |
| SupervisorExceptions.OverlappingStartsRun | adrouterAgent/src/main/runtime-supervisor.ts:135-137 | A run with two overlapping starts of a thread that ends with a lost slot |
| RuntimeSupervision.RuntimeSupervisor.Start | adrouterAgent/src/main/runtime-supervisor.ts:122-135 | Refused exactly while the thread has a runtime or a pending start |
| RuntimeSupervision.RuntimeSupervisor.ContinueStart | adrouterAgent/src/main/runtime-supervisor.ts:135-151 | Hands the start to the scheduler, or withdraws it when the scheduler refuses |
| RuntimeSupervision.RuntimeSupervisor.Launch | adrouterAgent/src/main/runtime-supervisor.ts:153-188 | Forks for a start that is still pending, otherwise gives the slot back |
| RuntimeSupervision.RuntimeSupervisor.StartRejected | adrouterAgent/src/main/runtime-supervisor.ts:579-605 | A start that fails before its fork leaves neither slot nor pending entry |
| RuntimeSupervision.RuntimeSupervisor.Stop | adrouterAgent/src/main/runtime-supervisor.ts:278-294 | Withdraws a pending start, in the queue or in front of its callback, and otherwise changes nothing; it never forks afterwards by StoppedNeverForks |
| RuntimeSupervision.RuntimeSupervisor.Finish | adrouterAgent/src/main/runtime-supervisor.ts:627-658 | Closes the current runtime of a thread and frees its slot only if its child is gone |
| RuntimeSupervision.RuntimeSupervisor.ChildExited | adrouterAgent/src/main/runtime-supervisor.ts:196-205 | Frees the slot, after closing the runtime if it was open |
| RuntimeSupervision.RuntimeSupervisor.RejectLate | adrouterAgent/src/main/runtime-supervisor.ts:579-584 | Frees the slot first and closes the runtime afterwards |
| AdmissionSpec.TimesTellAlways | adrouterAgent/src/main/local-rpc-server.ts:494-499 | The pruned list of a client still counts every window correctly that a later request can look at |
| AdmissionSpec.RateLimitHolds | adrouterAgent/src/main/local-rpc-server.ts:494-499 | In every run, no window of a minute holds more than 60 counted requests of a client |
| AdmissionSpec.WindowsAddUp | adrouterAgent/src/main/local-rpc-server.ts:45-48 | And no n minutes hold more than 60 n |
| AdmissionSpec.NoncesCounted | adrouterAgent/src/main/local-rpc-server.ts:500-511 | Live nonces are never more than the counted requests of the last ten minutes |
| AdmissionSpec.NonceCapacityUnreachable | adrouterAgent/src/main/local-rpc-server.ts:507-509 | A client never has more than 600 live nonces, so the capacity error never occurs |
| AdmissionSpec.NonceReuse | adrouterAgent/src/main/local-rpc-server.ts:500-511 | A nonce is accepted again only ten minutes after it was accepted |
| AdmissionSpec.AcceptedAtMostOnce | adrouterAgent/src/main/local-rpc-server.ts:465-513 | A signed request, known by client, nonce and timestamp, is accepted at most once in any run |
| AdmissionSpec.AcceptedExactly | adrouterAgent/src/main/local-rpc-server.ts:465-513 | In every run: a request more than a minute off the clock, changed, from an unknown or revoked client, without the scope, or not properly signed is refused for a reason that holds and leaves no trace; any other is refused for 60 counted requests of its client in the last minute, or else for a nonce accepted in the last ten minutes, and is accepted otherwise |
| LocalRpc.LocalRpcServer.VerifySignedRequest | adrouterAgent/src/main/local-rpc-server.ts:465-513 | The checks run in the order of the original, and counting and pruning happen where a refused request still causes them; what is accepted is told by AcceptedExactly |
| LocalRpc.LocalRpcServer.DropExpired | adrouterAgent/src/main/local-rpc-server.ts:501-503 | Keeps exactly the nonces that have not expired, whatever the order of iteration |
| LocalRpc.LocalRpcServer.OpenExport | adrouterAgent/src/main/local-rpc-server.ts:597-605 | Of a new handle nothing is delivered; its first read is answered exactly for its owner within five minutes; other handles stay |
| LocalRpc.LocalRpcServer.ReadExport | adrouterAgent/src/main/local-rpc-server.ts:613-653 | Answers only the owner, before the expiry, and in order; a drained or expired handle is gone |
| ExportSpec.ReadKeepsOrder | adrouterAgent/src/main/local-rpc-server.ts:641-652 | No read, of whatever client or handle, makes the delivered bytes of a handle anything but a prefix of its content; a chunk is as long as asked for or as what is left; a handle goes only with its last byte or when its owner reads after its expiry |
| ExportSpec.ReadsAreInOrder | adrouterAgent/src/main/local-rpc-server.ts:613-653 | In every run the chunks of a handle, put together, are a prefix of what it was opened with |
| ExportSpec.DoneExactlyAtTheEnd | adrouterAgent/src/main/local-rpc-server.ts:647-652 | A read reports the end exactly when all has been delivered, and exactly then the handle is gone |
| ExportSpec.ReadsToTheEnd | adrouterAgent/src/main/local-rpc-server.ts:641-652 | Reading on from where a handle stands gives the whole rest of its content, in chunks of any size |
| ExportSpec.AnsweredExactly | adrouterAgent/src/main/local-rpc-server.ts:613-653 | In every run a read is answered exactly for the owner, within five minutes of opening, at the place where the last answer stopped, and before the end; it then holds the next bytes, as many as asked for or as there are left |
| Json.RemovingNothing | adrouterAgent/src/shared/security.ts:29-43 | The sponsor filter is the identity on sponsor-free values |
| Json.RemovingAll | adrouterAgent/src/shared/security.ts:29-55 | What passed the filter contains no sponsor key at any depth |
| Json.SponsorKeysExactly | adrouterAgent/src/shared/security.ts:3-12 | A key counts as a sponsor key exactly when it spells one of the eight names, each letter in upper or lower case |
| SessionProjection.ReplayProjectsSame | adrouterAgent/src/main/session-service.ts:526-567 | Every projected entry can be replayed as an event, which projects to the same kind and payload |
| SessionProjection.ProjectsExactly | adrouterAgent/src/main/database.ts:1482-1564 | An event becomes an entry exactly when it is of one of the kinds with context, holds no sponsor key at any depth, and has its texts |
| SessionProjection.UserKeeps | adrouterAgent/src/main/database.ts:1482-1564 | The context of a user message is its text and, if it has one, its mode |
| SessionProjection.AssistantKeeps | adrouterAgent/src/main/database.ts:1482-1564 | That of an assistant message is its text, its content or none, and its model or "unknown" |
| SessionProjection.AssistantKeepsUsage | adrouterAgent/src/main/database.ts:1482-1564 | And its five token counts, each zero unless it is a number and not negative |
| SessionProjection.ToolKeeps | adrouterAgent/src/main/database.ts:1482-1564 | That of a tool result is its name, call and output, and it is an error exactly when the flag is truthy |
| SessionProjection.CompactionKeeps | adrouterAgent/src/main/database.ts:1482-1564 | That of a compaction is the six reported fields where present and the retained messages or none |
| SessionProjection.AnchorKeeps | adrouterAgent/src/main/database.ts:1482-1564 | That of an anchor is its event type and its whole payload |
| JournalSpec.PassGivesLocal | adrouterAgent/src/main/database.ts:1665-1680 | A pass over a log from empty tables gives each thread the index of its own events, however threads interleave |
| JournalSpec.ReadOrderSelects | adrouterAgent/src/main/database.ts:1666-1670 | Reading by thread and sequence shows each thread the same events in the same order as they were appended |
| JournalSpec.ApplyKeepsSynced | adrouterAgent/src/main/database.ts:1003-1047 | Appending an event and deleting a thread keep journal and index in step |
| JournalSpec.RunsStaySynced | adrouterAgent/src/main/database.ts:1003-1047 | In every state of every run, events of a thread are numbered without gaps and its index is that of its events |
| JournalSpec.RebuildEqualsIncremental | adrouterAgent/src/main/database.ts:1566-1680 | Rebuilding the index from nothing gives the entries and checkpoints that live projection had given |
| SessionFork.SecondPassChangesNothing | adrouterAgent/src/main/database.ts:1665-1680 | A further pass over the events adds no row |
| SessionFork.LocalNumbered | adrouterAgent/src/main/database.ts:1616-1623 | The entries of a thread are numbered 1 to n |
| SessionFork.CheckpointsStayValid | adrouterAgent/src/main/session-service.ts:496-504 | In every reachable state the digest of a checkpoint matches the entries up to it; which entries these are is told by CheckpointRecords |
| SessionFork.ReplayGivesContent | adrouterAgent/src/main/session-service.ts:515-515 | Replaying entries gives the new thread their kinds and payloads in order, and changes no other thread |
| SessionFork.CopiedContent | adrouterAgent/src/main/session-service.ts:505-518 | So does the whole copy, with the events around it |
| SessionFork.ForkSucceeds | adrouterAgent/src/main/session-service.ts:491-524 | Forking a checkpoint never fails its integrity check and copies the entries up to its ordinal; which part of the history this is, is told by ForkContainsHistory |
| JournalContents.EventsAreAppends | adrouterAgent/src/main/database.ts:1003-1047 | In every state of every run the events of a thread are exactly the appends to it since it was last deleted, in order and numbered from one |
| JournalContents.EntryRecords | adrouterAgent/src/main/database.ts:1566-1663 | In a database in step, the entry of an event is numbered by how many events before it have an entry and holds the event's own thread, turn, identifier and time, and its projection |
| JournalContents.CheckpointRecords | adrouterAgent/src/main/database.ts:1566-1663 | The ordinal of a checkpoint is the number of events of its thread before its own that have an entry, and its digest is that of exactly these entries |
| JournalContents.EveryCheckpoint | adrouterAgent/src/main/database.ts:1566-1663 | Every checkpoint is that of an event marked safe, with a turn |
| JournalContents.SafePointHasCheckpoint | adrouterAgent/src/main/database.ts:1566-1663 | And every such event has one |
| JournalContents.ForkContainsHistory | adrouterAgent/src/main/session-service.ts:491-524 | Forking a checkpoint succeeds, and the context of the fork is the sequence of projections of the source thread's events before the checkpoint event, with no mention of ordinals; other threads keep theirs |
| JournalContents.ForkJournal | adrouterAgent/src/main/session-service.ts:505-524 | The events of the fork are its creation, one replay of each entry in order, and the closing remark |
| JournalContents.ForkChecksIntegrity | adrouterAgent/src/main/session-service.ts:496-504 | In any database a fork fails its integrity check exactly when the entries found are not, digest for digest, those recorded |
| Databases.AppDatabase.AppendEvent | adrouterAgent/src/main/database.ts:1003-1047 | One more event with the next number of its thread, projected in the same step |
| Databases.AppDatabase.ProjectSessionEvent | adrouterAgent/src/main/database.ts:1566-1663 | Adds the entry or checkpoint of an event, with the ordinal and digest told by EntryRecords and CheckpointRecords, unless the event is already represented |
| Databases.AppDatabase.BackfillSessionProjection | adrouterAgent/src/main/database.ts:1665-1680 | Projects the whole log, and leaves an index that is in step untouched |
| Databases.AppDatabase.DeleteThread | adrouterAgent/src/main/database.ts:915-922 | Refuses an unknown thread and one that runs or awaits an approval; otherwise removes the rows of this thread and of no other |
| Databases.SessionService.AppendEntry | adrouterAgent/src/main/session-service.ts:526-567 | Appends the event of an entry, or nothing for an invalid entry |
| Databases.SessionService.AppendEntries | adrouterAgent/src/main/session-service.ts:515-515 | Appends the events of all entries in order, and stops at an invalid one |
| Databases.SessionService.ForkThread | adrouterAgent/src/main/session-service.ts:491-524 | Forks, with the content told by ForkContainsHistory, or leaves the database without a trace of the new thread |
| ApprovalSpec.DecisionsAreFinal | adrouterAgent/src/main/database.ts:1156-1244 | In any interleaving a decision once set, and a consumption once recorded, never changes |
| ApprovalSpec.ConsumedAtMostOnce | adrouterAgent/src/main/database.ts:1178-1215 | An approval is consumed at most once |
| ApprovalSpec.ConsumptionIsEarned | adrouterAgent/src/main/database.ts:1189-1205 | Only with version 2, allow-once, the matching binding and before the expiry, after an answer that was itself before the expiry |
| ApprovalSpec.EndedTurnIsNeverConsumed | adrouterAgent/src/main/database.ts:1217-1244 | What is undecided when its turn ends is denied for good |
| ApprovalSpec.DecidedExactly | adrouterAgent/src/main/database.ts:1156-1244 | Which actions decide an undecided approval: an answer, which for version 2 must be a denial or a single permission before the expiry, and a denial with its turn; each sets decision and time and nothing else |
| ApprovalSpec.NeverForTheThread | adrouterAgent/src/main/database.ts:1156-1176 | In every run an approval of version 2 allows the whole thread only if it was created so |
| ApprovalSpec.ConsumedExactly | adrouterAgent/src/main/database.ts:1178-1215 | In every run a consumption succeeds exactly with version 2, allow-once, the matching binding, before the expiry, and if none has succeeded before |
| ApprovalSpec.CreatedAsGiven | adrouterAgent/src/main/database.ts:1112-1139 | A new approval is stored as given, unconsumed, and no other changes |
| Approvals.ApprovalTable.CreateApproval | adrouterAgent/src/main/database.ts:1112-1139 | A new approval is unconsumed; a known identifier is refused |
| Approvals.ApprovalTable.ResolveApproval | adrouterAgent/src/main/database.ts:1156-1176 | Decides a pending approval, with the refusals of the original in their order |
| Approvals.ApprovalTable.ConsumeOperationApproval | adrouterAgent/src/main/database.ts:1178-1215 | Marks an approval consumed, or says why not and changes nothing |
| Approvals.ApprovalTable.DenyPendingApprovalsForTurn | adrouterAgent/src/main/database.ts:1217-1244 | Denies exactly the undecided approvals of the turn and returns them, the oldest first |
| BaselineSpec.RevertRestores | adrouterAgent/src/main/review-service.ts:92-109 | A revert reports a conflict, keeps every file and what the books expect, and conflicts again; or it restores the stored bytes of this file only, and a second one succeeds and changes no file and no baseline |
| BaselineSpec.EachAsAlone | adrouterAgent/src/main/review-service.ts:112-121 | Reverting a thread's files one after the other does to each what a revert of it alone would |
| BaselineSpec.AllRevertedMeans | adrouterAgent/src/main/review-service.ts:112-121 | Each file is restored and listed as reverted, or untouched and listed as a conflict; other files are untouched |
| BaselineSpec.ReportsInOrder | adrouterAgent/src/main/database.ts:1246-1313 | Recorded and undelivered reports together are the writes so far, in order |
| BaselineSpec.RunKeepsOriginals | adrouterAgent/src/main/database.ts:1255-1278 | Baselines exist exactly for reported files and hold what the first report says |
| BaselineSpec.OriginalIsFirstBefore | adrouterAgent/src/main/database.ts:1255-1278 | Through any mutations, outside edits and reverts the stored original is what the file held before the thread's first write |
| BaselineSpec.RunStaysAsLeft | adrouterAgent/src/main/database.ts:1272-1278 | As long as nobody else touches a file, the books expect it as the thread left it |
| BaselineSpec.UndisturbedRevertSucceeds | adrouterAgent/src/main/review-service.ts:92-109 | Then, once no report about the file is under way, a revert succeeds and brings back the bytes before the thread's first write |
| BaselineSpec.EditSurvives | adrouterAgent/src/main/review-service.ts:92-109 | An edit by somebody else after the thread's last report survives any number of reverts, each of which reports a conflict |
| BaselineSpec.RecordedExactly | adrouterAgent/src/main/database.ts:1255-1278 | A report moves the latest state of its own file, and sets the original only of a file that has none |
| Reviews.ReviewService.RecordFileMutation | adrouterAgent/src/main/database.ts:1246-1278 | The first report of a file fixes its original, later ones move only the latest state |
| Reviews.ReviewService.UpdateBaselineStatus | adrouterAgent/src/main/database.ts:1321-1332 | Keeps the original and all other baselines, and adds none; the next revert of the file conflicts exactly when the file does not hold the recorded state |
| Reviews.ReviewService.RevertFile | adrouterAgent/src/main/review-service.ts:73-110 | Reverts and announces it in the journal, reports a conflict, or reports a missing baseline |
| Reviews.ReviewService.RevertAll | adrouterAgent/src/main/review-service.ts:112-121 | The reverts in the order of the paths, with both lists in that order and judged by the state before |
| CompactionSpec.BoundaryUnique | adrouterAgent/src/runtime/agent-session.ts:400-413 | There is only one boundary: the last unit start with enough weight behind it, or 0 |
| CompactionSpec.BoundaryKeepsRuns | adrouterAgent/src/runtime/agent-session.ts:372-413 | It never separates an assistant message from the tool results answering it |
| CompactionSpec.CoveredExact | adrouterAgent/src/runtime/agent-session.ts:619-627 | Summarising one more slice keeps the summary about a prefix exactly when it was about one |
| CompactionSpec.CompactionCovers | adrouterAgent/src/runtime/agent-session.ts:605-660 | A compaction returns the summary and the untouched rest; the summary covers what lies before exactly when it covered the earlier part or was dropped |
| CompactionSpec.StaleSummaryExample | adrouterAgent/src/runtime/agent-session.ts:608-627 | Two compactions, the first message being replaced in between: the summary is of the old messages, and the result is that summary and the last message |
| CompactionSpec.SeriesCovers | adrouterAgent/src/runtime/agent-session.ts:605-660 | Over any series on an append-only list, the slices since the last reset are together exactly the messages before the boundary |
| CompactionSpec.KeepsNearest | adrouterAgent/src/runtime/agent-session.ts:598-638 | Both weights to keep are, of all that are allowed, the nearest to the room left in the budget: 1,024 to 32,768 for the first boundary, at least 1,024 for the second |
| CompactionSpec.CompactionExact | adrouterAgent/src/runtime/agent-session.ts:595-660 | A compaction takes place exactly if needed or forced and if the first boundary is not 0; it goes on to the second exactly if that is later and the context is still over its threshold |
| CompactionSpec.DropsExactly | adrouterAgent/src/runtime/agent-session.ts:424-428 | The summary is dropped exactly when the boundary has moved back over it or its last covered message looks different now |
| CompactionSpec.SameSignature | adrouterAgent/src/runtime/agent-session.ts:424-428 | Two messages look alike to it exactly when role, time, length and the first 256 characters of their text agree |
| CompactionSpec.SummaryContinues | adrouterAgent/src/runtime/agent-session.ts:605-627 | A summary that covers the messages in front of it, with the boundary not before it, is carried on and not begun anew |
| Compaction.MessageUnits | adrouterAgent/src/runtime/agent-session.ts:372-398 | The units tile the list, start where no tool-result run is under way, and weigh what their messages weigh |
| Compaction.RecentBoundary | adrouterAgent/src/runtime/agent-session.ts:400-413 | Returns the boundary |
| Compaction.ContextCompactionState.UpdateSummary | adrouterAgent/src/runtime/agent-session.ts:619-627 | The state records the boundary, the signature of the last covered message and the slice handed over |
| Compaction.ContextCompactionState.CompactMessages | adrouterAgent/src/runtime/agent-session.ts:577-689 | State and result are those of a compaction at the two boundaries |
| Compaction.SummaryChunks | adrouterAgent/src/runtime/agent-session.ts:457-479 | Chunks hold in order every message that bears no sponsor data, as a surrogate when it is over the limit; they exceed the limit only as single messages and start only where the one before was full |
| GlobRegex.SourceParses | adrouterAgent/src/runtime/workspace.ts:335-351 | The emitted source, for every glob, parses under section 22.2.1 of ECMA-262 to the intended terms |
| GlobRegex.TermsMatch | adrouterAgent/src/runtime/workspace.ts:335-351 | From any position the terms match the rest of a string exactly when the glob does |
| GlobRegex.SourceAccepts | adrouterAgent/src/runtime/workspace.ts:330-352 | The expression accepts exactly what a direct matcher accepts that lets two stars run to a line terminator |
| GlobRegex.TwoStarsExact | adrouterAgent/src/runtime/workspace.ts:338-341 | Letting two stars match anything makes no difference for a string exactly when it has no line terminator |
| GlobRegex.GlobMeantExactly | adrouterAgent/src/runtime/workspace.ts:338-341 | For a glob it makes no difference on any string exactly when the glob has no two stars |
| GlobRegex.LineFeedExample | adrouterAgent/src/runtime/workspace.ts:338-341 | Two stars, meant to match a line feed, do not |
| GlobRegex.GlobSource | adrouterAgent/src/runtime/workspace.ts:330-352 | Refuses exactly long globs and globs with a null character, and otherwise returns an expression that tests like the matcher |
| ShellCommand.QuotedBody | adrouterAgent/src/runtime/platform.ts:106-106 | Inside quotes the escaped text of an argument is read back as the argument |
| ShellCommand.ReadsBack | adrouterAgent/src/runtime/platform.ts:106-115 | A POSIX shell reads the serialised command as exactly the argument list, whatever the arguments contain |
| NdjsonSpec.SplitResumes | adrouterAgent/src/runtime/ndjson.ts:161-162 | Splitting can resume from the last unfinished line, also between a carriage return and its newline |
| NdjsonSpec.PushedWhole | adrouterAgent/src/runtime/ndjson.ts:150-190 | After any chunks, the output is that of the complete lines so far and the remainder is the last line |
| NdjsonSpec.FinishedWhole | adrouterAgent/src/runtime/ndjson.ts:150-190 | After the finish, events and errors are those of the lines of the whole text |
| NdjsonSpec.ChunkIndependent | adrouterAgent/src/runtime/ndjson.ts:146-191 | Two ways of cutting one text give the same events and the same errors |
| NdjsonSpec.SplitExactly | adrouterAgent/src/runtime/ndjson.ts:160-163 | The lines parsed are those the text is written with, whichever way each is ended, and the rest |
| NdjsonSpec.TrimExactly | adrouterAgent/src/runtime/ndjson.ts:163-166 | Trimming takes white space off both ends, all of it, and nothing else |
| NdjsonSpec.LineGivesOne | adrouterAgent/src/runtime/ndjson.ts:163-180 | A blank line gives nothing; any other gives one event, or one error with the parser's message, after its data prefix is taken off |
| NdjsonSpec.NothingDropped | adrouterAgent/src/runtime/ndjson.ts:146-191 | Over any chunks, events and errors together are as many as there are lines that are not blank |
| Ndjson.NdjsonParser.Push | adrouterAgent/src/runtime/ndjson.ts:150-153 | Handles the complete lines and keeps the last one |
| Ndjson.NdjsonParser.Finish | adrouterAgent/src/runtime/ndjson.ts:155-158 | Handles what is left and keeps nothing |
| Ndjson.NdjsonParser.Drain | adrouterAgent/src/runtime/ndjson.ts:160-190 | Both, with no error for a trailing remainder |
| Ndjson.NdjsonParser.ParseStream | adrouterAgent/src/runtime/ndjson.ts:146-191 | Pushing chunk by chunk and finishing gives the lines of the whole text |
| CliBranch.NoRepeats | adrouterAgent/src/main/session-service.ts:170-179 | No record appears twice on a branch |
| CliBranch.BranchUnique | adrouterAgent/src/main/session-service.ts:170-179 | There is at most one branch from a root to the last record |
| CliBranch.ActiveBranch | adrouterAgent/src/main/session-service.ts:160-179 | Fails exactly for repeated identifiers, unknown parents, or when the last record has no root among its ancestors; otherwise returns the branch |
| CliBranch.Walk | adrouterAgent/src/main/session-service.ts:170-179 | The walk over parents terminates, and reports a cycle exactly when no branch exists |
| FileTree.PutBack | adrouterAgent/src/runtime/structured-files.ts:416-417 | Taking an entry out of a tree and putting it back gives the same tree |
| FileTree.InventoryDeterminesTree | adrouterAgent/src/runtime/structured-files.ts:45-84 | Two trees with the same inventory are the same tree |
| FileTree.MadeDirs | adrouterAgent/src/runtime/structured-files.ts:416-416 | Making directories gives every directory on the way and disturbs nothing off the way |
| FileTree.CanMakeExactly | adrouterAgent/src/runtime/structured-files.ts:416-416 | Directories on the way to a path can be made exactly if no file is in the way |
| FileTree.PutAndDropCommute | adrouterAgent/src/runtime/structured-files.ts:315-316 | Removing and adding at unrelated paths can be done in either order |
| RecoverySpec.FailureKeepsSource | adrouterAgent/src/runtime/structured-files.ts:308-321 | A delete that fails anywhere changes nothing outside the vault; a failed move loses nothing and leaves its source as it was unless the destination is inside it |
| RecoverySpec.MoveIntoItself | adrouterAgent/src/runtime/structured-files.ts:310-316 | Moving a directory into itself fails, and changes nothing exactly when the parent of the destination exists |
| RecoverySpec.FailedMoveExact | adrouterAgent/src/runtime/structured-files.ts:310-321 | Over all ways an admitted move can fail, nothing outside the vault changes exactly when the parent of the destination exists or cannot be made, or the copy fails before |
| RecoverySpec.FailedMoveSourceExact | adrouterAgent/src/runtime/structured-files.ts:310-321 | Over all of them the source is unchanged exactly in these cases or when the destination is not inside it |
| RecoverySpec.LeftoverExample | adrouterAgent/src/runtime/structured-files.ts:314-321 | Moving the empty directory d to d/x/y fails and leaves d/x behind |
| RecoverySpec.DeleteThenRestore | adrouterAgent/src/runtime/structured-files.ts:308-422 | A delete and a restore give back the whole workspace, the vault included, for every entry not called like the record |
| RecoverySpec.RestorableExactly | adrouterAgent/src/runtime/structured-files.ts:230-238 | After a delete a restore is offered exactly when the entry was not called like the record |
| RecoverySpec.LostFileExample | adrouterAgent/src/runtime/structured-files.ts:230-238 | An empty file called like the record is deleted without an error and cannot be restored |
| RecoverySpec.MoveThenRestore | adrouterAgent/src/runtime/structured-files.ts:310-422 | A move and a restore leave the source where it was and a copy at the destination, and the vault as before |
| RecoveryRuns.StaysRecoverable | adrouterAgent/src/runtime/structured-files.ts:331-422 | Through any run that spares its vault entry, a deleted or moved tree can be restored exactly while its path is free, and comes back as it was |
| RecoveryRuns.VaultStaysBounded | adrouterAgent/src/runtime/structured-files.ts:203-215 | Over any run, failures and partial clean-ups included, the vault holds at most 100 files and 50 MiB beside one record |
| RecoveryRuns.OperateAdds | adrouterAgent/src/runtime/structured-files.ts:203-238 | Exactly the files and bytes that a delete or a move, successful or not, adds to the vault |
| RecoveryRuns.WithinLimitExact | adrouterAgent/src/runtime/structured-files.ts:203-215 | After a successful one the vault is within 50 MiB exactly when it had room for payload and record |
| RecoveryRuns.RunWithinExactly | adrouterAgent/src/runtime/structured-files.ts:203-215 | It is so throughout a run, failures included, exactly when each operation had room for all it added |
| RecoveryRuns.DeleteAll | adrouterAgent/src/runtime/structured-files.ts:203-238 | A series of deletes is admitted while there is room for the payloads and the records before, and leaves all of them in the vault |
| RecoveryRuns.OvershootExample | adrouterAgent/src/runtime/structured-files.ts:203-215 | Five admitted deletes from an empty vault leave 300 bytes more than 50 MiB |
| RecoveryExact.AdmittedExactly | adrouterAgent/src/runtime/structured-files.ts:203-220 | An operation is admitted exactly if its source is not protected, not too large and as approved, its destination is not protected and free, the vault has room for 100 files and 50 MiB with it, and its identifier is new |
| RecoveryExact.RefusedForAReason | adrouterAgent/src/runtime/structured-files.ts:203-220 | Each refusal names a reason that holds |
| RecoveryExact.SucceedsExactly | adrouterAgent/src/runtime/structured-files.ts:259-329 | Without a fault of the file system an admitted operation succeeds exactly if it is no delete of a directory called like the record, no move of anything called like it or into itself, and the directories of the destination can be made |
| RecoveryExact.OfferedExactly | adrouterAgent/src/runtime/structured-files.ts:331-371 | A restore is offered exactly for a small record of this identifier whose payload is small and as recorded and whose path is free and not protected |
| RecoveryExact.RestoresExactly | adrouterAgent/src/runtime/structured-files.ts:373-422 | Without a fault an offer succeeds exactly while nothing of it has changed and the directories of its path can be made |
| RecoveryExact.GuardedStays | adrouterAgent/src/runtime/structured-files.ts:147-165 | Whatever operations and restores run and wherever they fail, what lies under each protected name at the top of the workspace stays as it is |
| StructuredFiles.Inventory | adrouterAgent/src/runtime/structured-files.ts:45-84 | The walk succeeds exactly when entries and bytes are within the limits, and then counts them, in any order of visiting |
| StructuredFiles.RecoveryUsage | adrouterAgent/src/runtime/structured-files.ts:183-201 | Counts are exact within the limits and exceed a limit only if the vault does |
| StructuredFiles.CompareTarget | adrouterAgent/src/runtime/structured-files.ts:147-165 | Refuses an oversized entry first and then any difference from the approved state |
| StructuredFiles.WorkspaceFiles.Admit | adrouterAgent/src/runtime/structured-files.ts:203-220 | Checks source, destination, room in the vault and the identifier, in this order, and changes nothing |
| StructuredFiles.WorkspaceFiles.Execute | adrouterAgent/src/runtime/structured-files.ts:259-329 | Leaves the workspace the specification describes, in success, refusal and failure |
| StructuredFiles.WorkspaceFiles.Move | adrouterAgent/src/runtime/structured-files.ts:310-315 | Copy, directories, rename: succeeds exactly when feasible, and says what a failure leaves |
| StructuredFiles.WorkspaceFiles.CreateRestoreManifest | adrouterAgent/src/runtime/structured-files.ts:331-371 | Offers exactly what the record and payload allow |
| StructuredFiles.WorkspaceFiles.ExecuteRestore | adrouterAgent/src/runtime/structured-files.ts:373-422 | Restores an offer whose three targets are still as approved |

## Left out

- React views, Electron windows, IPC and preload code: user interface and plumbing.
- Network, credential and cryptographic code, and the `router/` and `adrouterCLI/` trees: they work through libraries and foreign services.
- The SQL engine, migrations and zod schemas: tables are sequences and maps of the columns used; malformed rows are not represented.
- Git, child processes and the sandbox: foreign processes. Only the lease lifecycle of a child is modelled, not its messages. The status of turns and threads is left out; where a deletion depends on it, it is an input.
- The reading of a lease from a workspace and its Git directory: a lease is an input of `ContinueStart`.
- Pairing requests and their own rate limits: the same sliding window with other constants.
- `file_mutations` rows: forward and reverse patches are never read back.
- Copying (`file.copy`): it uses no vault; staging and rename would repeat the move.
- Symbolic links, permissions, access outside the workspace and the file-name rules of `isProtectedPath`: only its protected directories are represented.
- A path spelled so that it names the workspace itself (such as `./.`): paths are sequences of names, and the empty one is refused.
- The pattern of recovery identifiers: identifiers are taken to match it.
- RecoveryRuns.VaultStaysBounded: entries added to the vault by other programs are not part of a run, because nothing in the code limits them.
- RecoverySpec.DeleteThenRestore: supposes that the record is not itself over 10 MiB, which a record with two paths of at most 4,096 characters never is.
- Decoding bytes to text and parsing the JSON of one line: the NDJSON parser gets decoded text and a parse function.
- ShellCommand.SerializeSandboxCommand: the PowerShell branch is modelled without a theorem, because PowerShell's grammar is not among the standards the code relies on.
- `importedContext` entries and the conversion of imported records: only the walk over the record tree is modelled.
- Secret scrubbing and `classifyCommand`: lists of patterns.
- The second clock reading of a request in `pruneRate`: one reading per request is assumed.
- Lone surrogates, and lengths and prefixes counted in UTF-16 code units: a character outside the basic plane counts once here and twice there, in `?` of a glob, in the length limit of a glob and in message signatures.
- The order of JSON object fields: two serialisations that differ only in order have one digest here.
- GlobRegex.SourceAccepts: the parser covers the fragment of the pattern grammar that can be emitted, without groups, alternatives, counted quantifiers and class ranges.
