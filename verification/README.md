# Devlegate in Dafny

A model of the parts of Devlegate whose behaviour no finite test can exhaust, with proofs of what they
promise over every input, every run or every interleaving.

- **Worker runs.** `Unicode`, `Json`, `WorkerEgress`, `StdoutReader`, `ExecutionResult` and `WorkerRun` follow a
  worker's stdout from bytes through the bounded reader, the events, the single reserved claim and the canonical
  conclusion to the report dictionary and back. `ReportStore` publishes that report with file links by any
  number of writers that may crash anywhere. `Containment` interleaves the cgroup's processes with the
  supervising thread.
- **Service.** `IpcServer` and `IpcRuns` interleave the acceptor, the handlers and `stop`; `Framing` carries frames
  over short reads and writes; `Handoff` and `HandoffRuns` replace the service image by exec while a client waits.
- **Tickets and workspaces.** `Tickets` and `Scheduler` load the graph, search it for cycles and run it to
  the end; `Workspace` and `WorkspaceOutcomes` prepare, checkpoint and retire one worktree of an abstract Git
  repository.
- **Packaging.** `ComponentTree`, `Packaging`, `DeepTrees` and `PackagePlan` freeze a plan and check that a run
  emits exactly it; `DependencyOrder` (over `Graphs`) orders the build targets; `Zstd`, `ArArchive` and
  `LogTail` are byte formats.

State that the program changes in place is a class or a loop proved against a specification function; code
run by several threads or processes is a state machine whose steps are the program's critical sections and
system calls. JSON decoding, SHA-256, signal names, commit ancestry and what each operating-system call did
are parameters. Every exception the program catches or lets through is a result value.

## What the proofs found

The code is modelled as it is. Where it does not meet a property its design suggests, a lemma names an input
or run, and another states exactly when the property holds.

- **Retired and not started.** When a `ContainmentError` or `OSError` leaves `_run_opencode`, or logging the end
  of the execution raises, `WorkerSupervisor.run` answers with the default `worker_group_retired=True` and
  `process_started=False`, although the worker or its children may be alive (`Containment.LostWorker`,
  `Containment.LeftBehind`, `Containment.ForgottenWorker`). The retirement is right in every run exactly when
  cgroup.kill and the service log can be written and nobody else removes the cgroup; "not started" needs
  cgroup.events to be readable as well.
- **A silent reader.** An event whose `type`, or a tool event whose status, is a list or an object raises
  `TypeError` in the stdout thread; so does any decoding error other than the two that are caught. The thread
  ends without a transport error, and a claim accepted before decides the conclusion
  (`WorkerRun.SilentReaderDeath`). `WorkerRun.DocumentedExactly` says for which streams the conclusion is as
  documented, and `WorkerRun.ConclusionExactly` what it is for every stream.
- **Carriage returns.** `read_text` translates newlines, so a report holding a carriage return fails its
  integrity check when read and conflicts with its own artifact when replayed
  (`ReportStore.ReadsBackExactly`, `ReportStore.ReplaysAreSafeExactly`).
- **Texts UTF-8 cannot encode.** Texts are sequences of code points, which JSON escapes can fill with lone
  surrogates. One record with such a claim concludes as completed, and `build_execution_report` raises on it
  (`WorkerRun.SurrogateReport`); `WorkerRun.UnbuildableExactly` says for which runs it raises.
- **Unrecorded hand-off failures.** A replaced lock file raises `DevlegateError` past the clause that records
  the failure, and an exception from `serve` or the teardown records none (`Handoff.ReleasesRecordedExactly`).
  A drain that gives up lets "accepted" overwrite "handoff", and even "failed" before the process exits
  (`Handoff.NeverBackwardExactly`, `Handoff.EndsRecordedExactly`).
- **Deeper trees.** A tree component emits its frozen ids exactly when no leaf lies more than two levels below it
  (`DeepTrees.TreeScopedExactly`). One deep leaf can end the whole run, shallow leaves beside it included
  (`DeepTrees.OneDeepLeafEndsTheRun`). No target plan is that deep (`DeepTrees.TargetChildrenAreShallow`).
- **Frames of other writers.** `_zstd_decode` skips 4 or 8 bytes for the content size and none for a dictionary, so
  it rejects valid frames whose header is laid out otherwise. `Zstd.FramesReadExactly` says for which frame header
  descriptors of RFC 8878 it returns the content of all frames of raw blocks; `Zstd.WitnessIsMisread` has a frame
  for each of the others. The program's own frames are among the good ones (`Zstd.RoundTrip`).

## Model

| member | source | states |
|---|---|---|
| WorkerRun.ConclusionExactly | src/devlegate/worker_supervisor.py:358-586 | for every byte stream, a run succeeds with a claim exactly when its surroundings are undisturbed, every record before the one that ends the reader is short enough and supported, that one is not reported as a protocol error, the log was kept, and exactly one event taken is reserved and is that claim |
| WorkerRun.DocumentedExactly | src/devlegate/worker_supervisor.py:372-421 | for every stream and decoder, success is as documented (every record supported, exactly one the claim) in all surroundings, with any logs and any terminal that does not raise, if and only if no uncaught record comes right after good ones only with one valid claim by then |
| WorkerRun.DocumentedConclusion | src/devlegate/worker_supervisor.py:372-421 | when no record ends the reader thread, success is as documented, with any terminal and logs |
| WorkerRun.NotFailedHasClaim | src/devlegate/execution_result.py:282-335 | any conclusion other than failed is the outcome of the accepted claim; building the result never fails on parser output |
| WorkerRun.HiddenRecord | src/devlegate/worker_supervisor.py:377-388 | any uncaught record after good ones and a claim makes a run succeed that the documentation fails |
| WorkerRun.SilentReaderDeath | src/devlegate/worker_supervisor.py:380-388 | a claim followed by an event with an unhashable type concludes as completed although the second record is not supported |
| WorkerRun.UnbuildableExactly | src/devlegate/execution_result.py:338-371 | for every byte stream, the report of a run cannot be built exactly when the worker was launched and supervised to its end and the only reserved event taken is a valid claim with a surrogate in its report |
| WorkerRun.SurrogateReport | src/devlegate/execution_result.py:353-359 | a stream of one record whose claim is accepted and concludes as completed, and whose report cannot be built |
| WorkerRun.Run | src/devlegate/worker_supervisor.py:313-586 | the sequence of assignments to the transport error and the retirement flag computes `RunResult`, which the theorems above are about |
| WorkerRun.TransportCleanExactly | src/devlegate/worker_supervisor.py:550-583 | through the whole precedence of errors, no transport error is left exactly when nothing went wrong |
| WorkerRun.TransportIsFirst | src/devlegate/worker_supervisor.py:550-583 | the transport error is the first error there is, in the order identity, log, interruption, stream, prompt, populated cgroup, destroy |
| WorkerRun.FlagsExactly | src/devlegate/worker_supervisor.py:550-586 | started, retired, exit status, interruption and the claim or its absence in the result of a run |
| WorkerRun.NotFailedExactly | src/devlegate/execution_result.py:282-308 | a result is not failed exactly when the worker started, exited 0, and transport and egress are clean with a claim |
| StdoutReader.ConsumeStdout | src/devlegate/worker_supervisor.py:358-421 | the bounded readline loop, with its discarding of oversized records, is the fold over the stream split at LF: it hands on exactly the records within the bound, flags the others and resynchronises at the next LF, unless the service log raises and ends it |
| StdoutReader.Discard | src/devlegate/worker_supervisor.py:365-370 | discarding stops right after the first LF, or at the end of the stream, whatever the record's length |
| StdoutReader.HandleEvent | src/devlegate/worker_supervisor.py:377-421 | the effect of one event on parser, transport error, log flag and thread, exceptions of terminal and service log included |
| StdoutReader.HandleRecord | src/devlegate/worker_supervisor.py:372-378 | the effect of one record of acceptable length, decoding and an exception of the service log included |
| StdoutReader.ReadAllMeaning | src/devlegate/worker_supervisor.py:358-421 | what the fold found, read off the records: parsed events, whether the thread survived, transport error exactly when a record up to its end is reported as a protocol error, log flag exactly when a write was lost |
| StdoutReader.LinesPartition | src/devlegate/worker_supervisor.py:361-371 | the records are the stream cut after each LF and nowhere else |
| WorkerRun.JudgedExactly | src/devlegate/worker_supervisor.py:380-406 | which events are supported, which raise in the reader and so which are protocol errors, read off the event's paths |
| WorkerRun.RejectedExactly | src/devlegate/worker_supervisor.py:380-406 | which part of a rejected event the protocol error complains about |
| WorkerRun.ErrorMessageIsFirst | src/devlegate/worker_supervisor.py:203-217 | the message of an error is the first text among itself, its message, that of its data and its name |
| WorkerRun.ShowsExactly | src/devlegate/worker_supervisor.py:390-421 | which supported events write to the log and the terminal |
| WorkerEgress.AcceptsExactlyOne | src/devlegate/worker_egress.py:94-122 | over any events, the parser accepts a claim exactly when one event is reserved and that one is the valid claim |
| WorkerEgress.AfterAClaim | src/devlegate/worker_egress.py:105-115 | after a claim, any further reserved event, valid or not, is an error |
| WorkerEgress.ErrorIsFinal | src/devlegate/worker_egress.py:95-96 | an error is never replaced and no claim is accepted after it |
| WorkerEgress.WorkerEgressParser.Consume | src/devlegate/worker_egress.py:94-115 | one event changes claim and error as `Consumed` says |
| WorkerEgress.WorkerEgressParser.Finish | src/devlegate/worker_egress.py:117-122 | the claim, or the error, or that there was no claim |
| Containment.RetiredMeansGone | src/devlegate/worker_supervisor.py:523-586 | in every interleaving of join, fork, exit and supervision, when `_run_opencode` returns retired no process of the worker is alive and the cgroup is gone |
| Containment.ReturnedExactly | src/devlegate/worker_supervisor.py:550-586 | in every interleaving, `_run_opencode` answers "started" exactly when the worker was spawned and "retired" exactly when it was spawned and its cgroup is gone, unless somebody else removes cgroups |
| Containment.ReportedExactly | src/devlegate/worker_supervisor.py:721-779 | `run` never reports a removed group of a spawned worker as not retired, and when nothing raises its two flags are exact |
| Containment.NeverStuck | src/devlegate/worker_supervisor.py:313-586 | in every reachable state before its end the supervising thread can take a step, or waits for a live worker whose exit lets it |
| Containment.ThreadEnds | src/devlegate/worker_supervisor.py:313-586 | every step of the supervising thread brings it closer to its end |
| Containment.CleanRun | src/devlegate/worker_supervisor.py:550-586 | a worker that exits by itself is reported as retired and started, its cgroup removed |
| Containment.StoppedRun | src/devlegate/worker_supervisor.py:487-586 | an interrupted worker is killed, its cgroup emptied by one more kill, and it is reported as retired and started |
| Containment.GoneStaysGone | src/devlegate/worker_supervisor.py:523-586 | once nobody is alive after the spawn, no further run brings anybody back |
| Containment.RetirementIsTruthfulExactly | src/devlegate/worker_supervisor.py:721-779 | the retirement that `run` reports is right in every run exactly when cgroup.kill and the service log can be written and nobody else removes the cgroup |
| Containment.StartIsTruthfulExactly | src/devlegate/worker_supervisor.py:759-779 | "not started" is right in every run exactly when neither a cgroup file operation nor the service log raises |
| Containment.LostWorker | src/devlegate/worker_supervisor.py:487-501 | a run that reports a live worker as retired and never started |
| Containment.LeftBehind | src/devlegate/worker_supervisor.py:759-779 | a log write that fails once makes `run` report a group as retired that it had just found alive |
| Containment.ForgottenWorker | src/devlegate/execution_containment.py:433-435 | a run that reports a finished worker as never started |
| Containment.EmptyMeansNobody | src/devlegate/execution_containment.py:205-214 | since the joiner enters the cgroup before exec, an unpopulated cgroup means nobody is alive once the leader is gone |
| Containment.WorldIsContained | src/devlegate/execution_containment.py:393-398 | no step of the processes brings back a process, revives the leader or populates the cgroup, except the joiner entering it |
| Containment.RunKeepsInv | src/devlegate/worker_supervisor.py:487-586 | the membership and place invariants hold throughout every run |
| ReportStore.VisibleReportIsBacked | src/devlegate/execution_result.py:399-476 | with any writers and crashes between any two file operations, a visible JSON report is a coherent one of this path, and its artifact is visible and belongs to it |
| ReportStore.VisibleFilesAreFinal | src/devlegate/execution_result.py:441-470 | a visible JSON report or artifact never changes in any later run |
| ReportStore.ReadsBackExactly | src/devlegate/execution_result.py:490-516 | a visible report is read back, past the checks of its identity and digest, exactly when its long text holds no carriage return |
| ReportStore.ReplaysAreSafeExactly | src/devlegate/execution_result.py:441-451 | replaying a report never meets an unrecognised artifact exactly when its long text holds no carriage return |
| ReportStore.ReplayOutcome | src/devlegate/execution_result.py:399-488 | replays of such a report, concurrent or crashed, end as published or "already exists" with that report visible |
| ReportStore.ConflictingReplay | src/devlegate/execution_result.py:441-451 | after a crash that left the artifact behind, replaying a report with a carriage return fails |
| ReportStore.StepKeepsInv | src/devlegate/execution_result.py:399-488 | every file operation of every writer keeps the publication invariant |
| ReportStore.AloneOutcome | src/devlegate/execution_result.py:399-488 | one writer's operations, left alone, do what a single write does: invalid, artifact conflict, already exists or published |
| ReportStore.ReportFiles.Write | src/devlegate/execution_result.py:399-488 | one write's outcome and both files after it, for every content of the files before |
| ReportStore.TranslateExactly | src/devlegate/execution_result.py:441-451 | reading a text back changes it exactly when it holds a carriage return |
| ReportStore.InterruptedWriter | src/devlegate/execution_result.py:399-488 | a writer may crash anywhere and any file operation may fail, and neither changes a visible file |
| ExecutionResult.AcceptedExactly | src/devlegate/execution_result.py:104-245 | `from_dict` accepts exactly the dictionaries of buildable reports, up to the optional keys, and returns that report |
| ExecutionResult.ReportRoundTrip | src/devlegate/execution_result.py:64-98 | every report built from a valid run and identity survives `as_dict` and `from_dict` |
| ExecutionResult.AsDictOfFromDict | src/devlegate/execution_result.py:104-245 | writing what was read gives the dictionary back with absent optional keys filled in |
| ExecutionResult.AcceptedIsCoherent | src/devlegate/execution_result.py:180-222 | an accepted dictionary has the derivable conclusion, reason, digest, artifact and claim data |
| ExecutionResult.IdentifierExactly | src/devlegate/execution_result.py:25 | identifiers are letters and digits, with underscores and hyphens after the first character |
| ExecutionResult.OldReportsWereStarted | src/devlegate/execution_result.py:169-171 | a dictionary without `process_started` reads as a worker that was started |
| ExecutionResult.AcceptsOwnDict | src/devlegate/execution_result.py:399-402 | the check at the start of `write` passes exactly for coherent reports |
| ExecutionResult.BuiltExactly | src/devlegate/execution_result.py:311-371 | coherent reports are exactly those `build_execution_report` makes with valid identifiers and claims |
| ExecutionResult.MatchesExactly | src/devlegate/execution_result.py:64-98 | holding a report's values key by key is the same as being its dictionary once filled in |
| ExecutionResult.ParseOfClaimDict | src/devlegate/execution_result.py:254-279 | a claim dictionary parses back to its claim |
| ExecutionResult.ClaimDictOfParse | src/devlegate/execution_result.py:254-279 | a parsed claim writes its dictionary back, filled in |
| ExecutionResult.ParsedExactly | src/devlegate/execution_result.py:254-279 | a dictionary parses to a claim exactly when, filled in, it is that claim's own dictionary |
| ExecutionResult.ReadExactly | src/devlegate/worker_egress.py:59-84 | the worker's arguments are read as a claim exactly when, filled in, they are that claim's dictionary, each field under its own key |
| ExecutionResult.ClaimedExactly | src/devlegate/worker_egress.py:94-115 | which events are reserved and which claim what, read off the event's paths: tool, type, completed status and arguments |
| ExecutionResult.ReasonIsFirstFlaw | src/devlegate/execution_result.py:282-308 | a run fails with the first flaw it has as the reason (launch, signal, exit status, transport, egress) and otherwise concludes as its claim says |
| ExecutionResult.IntTextReadsBack | src/devlegate/execution_result.py:292-299 | the numbers in a reason are decimal: every integer reads back from its text |
| IpcServer.NothingNewAfterStop | src/devlegate/ipc_server.py:467-515 | once the stop flag is set, no run registers a connection, admits a request or adds a pending response |
| IpcServer.AtMostOnePending | src/devlegate/ipc_server.py:506-570 | in every interleaving each connection has at most one pending response, of an admitted request |
| IpcServer.StopClosesOnlyQuiet | src/devlegate/ipc_server.py:305-332 | a connection that `stop` closed has no unsettled admitted request and no handler answering one, unless the deadline has passed |
| IpcServer.SettledMeansAnswered | src/devlegate/ipc_server.py:526-570 | in every interleaving, unless the server is stopping, an event is set only for a request whose response was sent, and no request is answered twice |
| IpcServer.AnsweredRequest | src/devlegate/ipc_server.py:526-570 | a run from accepting a connection to an answered and settled request |
| IpcRuns.AfterAResponse | src/devlegate/ipc_server.py:517-570 | after a response, delivered or not, the handler settles its request and sets the event, and it leaves exactly when the response was fatal or undelivered |
| IpcRuns.HandlersEnd | src/devlegate/ipc_server.py:526-570 | while stopping, every step of a handler brings it closer to its end, at most six steps away |
| IpcRuns.StopEnds | src/devlegate/ipc_server.py:305-332 | every step of `stop` brings it closer to its end in a well-founded order |
| IpcRuns.StopGoesOn | src/devlegate/ipc_server.py:305-332 | `stop` is never stuck: it can take a step, or its deadline can pass and release every event it awaits |
| IpcRuns.NothingSkipped | src/devlegate/ipc_server.py:312-327 | `stop` takes every connection and event of a phase before the next phase |
| IpcRuns.IdleStop | src/devlegate/ipc_server.py:305-332 | a run that stops an idle server: connections closed and unregistered, both threads gone, no deadline |
| IpcRuns.BusyStop | src/devlegate/ipc_server.py:305-332 | a run in which `stop` awaits a request in progress and closes its connection after the response |
| IpcRuns.SettledUnanswered | src/devlegate/ipc_server.py:548-552 | a run in which a dispatch that fails while stopping is settled without a response |
| IpcServer.StoppedMeansAllClosed | src/devlegate/ipc_server.py:326-332 | when `stop` has closed its last snapshot, every connection still registered was closed |
| IpcServer.AwaitedWillBeSettled | src/devlegate/ipc_server.py:322-325 | `stop` never waits in vain: an event it still awaits belongs to a handler that owes it or is about to set it, or whose handler crashed |
| IpcServer.RunKeepsInv | src/devlegate/ipc_server.py:467-570 | the invariant of connections, handlers and stopper holds throughout every run |
| IpcServer.HandlerKeepsConnections | src/devlegate/ipc_server.py:517-570 | every step of a handler keeps its pending set in line with its place and apart from all others |
| IpcServer.StopKeepsStopper | src/devlegate/ipc_server.py:305-332 | every step of `stop` keeps what it knows about quiet connections |
| IpcServer.HandlerShrinks | src/devlegate/ipc_server.py:506-526 | no handler step admits or adds anything once the flag is set |
| Handoff.LockHeldUntilExit | src/devlegate/daemon.py:346-405 | from acceptance on, across exec, the lock file stays open and locked until it is closed on the way out or the process exits |
| Handoff.ReleasesRecordedExactly | src/devlegate/daemon.py:241-358 | the lock is given up only after the failure was recorded, exactly when no teardown raises, nothing kills the service, receipts can be written and the lock file stays in place |
| Handoff.EndsRecordedExactly | src/devlegate/daemon.py:241-358 | the failed receipt is still there when the service is gone, exactly when besides that the drain waits for the request's handler |
| Handoff.Overwritten | src/devlegate/daemon.py:345-360 | a handler the drain gave up on overwrites the failed receipt before the process exits |
| Handoff.NeverBackwardExactly | src/devlegate/daemon.py:141-187 | the receipt never moves backward through accepted, handoff, completed, failed exactly when the IPC drain waits for the request's handler |
| Handoff.ClientIsRight | src/devlegate/cli.py:610-675 | a client that returns has seen a ready replacement that adopted the lock; one that says failed has seen the failure recorded; one that says lost has seen the lock given up, or its file replaced |
| Handoff.InodeRefused | src/devlegate/daemon.py:334-358 | a replaced lock file ends the new image with the receipt still at handoff |
| Handoff.HandoffBeforeAcceptance | src/devlegate/daemon.py:162-187 | a drain that gives up lets the accepted receipt overwrite the handoff receipt |
| Handoff.ClientReturns | src/devlegate/cli.py:654-664 | a restart in which nothing goes wrong reaches a returning client |
| HandoffRuns.ServiceEnds | src/devlegate/daemon.py:141-358 | every step of the service, old image or new, brings it closer to its end |
| HandoffRuns.ServiceGoesOn | src/devlegate/daemon.py:141-358 | once a restart is requested the service is never stuck: it can take a step, or waits for the request's handler, which can |
| HandoffRuns.ClientGoesOn | src/devlegate/cli.py:610-675 | the client always has a step until it answers |
| HandoffRuns.DeadlineAfterHandoff | src/devlegate/cli.py:624-632 | the client's deadline runs only once the hand-off has been recorded |
| HandoffRuns.HandoffFails | src/devlegate/daemon.py:162-196 | a descriptor that cannot be inherited, or a failed exec, ends with the failed receipt written and the lock given up |
| HandoffRuns.ReadinessFails | src/devlegate/daemon.py:280-358 | a replacement that cannot mark or report readiness overwrites "completed" with "failed" and ends |
| HandoffRuns.LateFailure | src/devlegate/cli.py:610-650 | a client that missed the failed receipt and then finds the lock gone reads once more and says that the restart failed |
| HandoffRuns.LostToReplacement | src/devlegate/cli.py:610-675 | a replaced lock file makes the client say that the lock was lost although the service holds it |
| Handoff.ServiceKeepsReceipt | src/devlegate/daemon.py:197-314 | every step of the service keeps the receipt within what its place allows |
| Handoff.ClientKeepsInv | src/devlegate/cli.py:610-675 | every step of the client keeps what its place says about receipt, lock and readiness |
| Workspace.ReusableExactly | src/devlegate/execution_workspace.py:144-198 | `inspect` answers reusable exactly when `prepare` would return that very workspace and change nothing, it is clean, and its head is the expected one |
| Workspace.PrepareIsLocal | src/devlegate/execution_workspace.py:80-142 | `prepare` never moves an existing branch and touches no other branch, worktree or path, even when it fails |
| Workspace.PreparedIsBound | src/devlegate/execution_workspace.py:80-142 | a prepared workspace is on its branch, at its head, descends from the base, and `inspect` calls it reusable as long as it is clean |
| Workspace.RetireIsLocal | src/devlegate/execution_workspace.py:206-252 | `retire` removes exactly its own registration and checkout, and changes nothing when it fails |
| Workspace.RetireLosesNothing | src/devlegate/execution_workspace.py:206-252 | what a successful `retire` removes was a clean checkout of the branch at the expected head |
| Workspace.MissingWorktreeIsRestored | src/devlegate/execution_workspace.py:80-176 | when `inspect` finds only the worktree missing, `prepare` restores it at the branch's head exactly when no locked registration is in the way |
| Workspace.PrepareAfterRetire | src/devlegate/execution_workspace.py:80-252 | preparing after retiring a registered workspace restores it at the same head, exactly when the base is still a commit and an ancestor |
| Workspace.CheckpointSurvivesRetirement | src/devlegate/execution_workspace.py:409-444 | checkpointing whatever the worker left, retiring and preparing again gives a clean workspace at the checkpoint's head, holding exactly the worker's files |
| Workspace.CheckpointKeepsBinding | src/devlegate/execution_workspace.py:409-444 | a checkpoint leaves the workspace bound and clean at a head holding exactly the worker's files, commits exactly when they differ from the old head's, and moves no other branch |
| WorkspaceOutcomes.PreparedExactly | src/devlegate/execution_workspace.py:80-142 | `prepare` succeeds exactly when base, branch, other worktrees and path allow it; the branches, the workspace returned, its dirty flag and the files of an added worktree are given in full |
| WorkspaceOutcomes.FirstPrepare | src/devlegate/execution_workspace.py:472-496 | a missing branch is created at the base and nowhere else, also when `prepare` fails, and the first workspace is at the base |
| WorkspaceOutcomes.RecoverableExactly | src/devlegate/execution_workspace.py:144-176 | `inspect` answers recoverable exactly when the branch is missing or unrelated, or nothing is at the free path |
| WorkspaceOutcomes.RetiredExactly | src/devlegate/execution_workspace.py:206-252 | `retire` succeeds exactly on this manager's clean workspace at the expected head, gone already or standing and unlocked |
| WorkspaceOutcomes.RetireAgain | src/devlegate/execution_workspace.py:206-252 | retiring again succeeds and changes nothing |
| WorkspaceOutcomes.CheckpointedExactly | src/devlegate/execution_workspace.py:409-444 | `checkpoint` succeeds exactly on a standing workspace at the head the caller knows; a moved head is refused and nothing changes |
| Workspace.Repository.Prepare | src/devlegate/execution_workspace.py:80-142 | the new repository and the result are those of `Prepared`, which the theorems here and `WorkspaceOutcomes.PreparedExactly` are about |
| Workspace.Repository.Retire | src/devlegate/execution_workspace.py:206-252 | the new repository and the result are those of `Retired` |
| Workspace.Repository.Checkpoint | src/devlegate/execution_workspace.py:409-444 | the new repository and the result are those of `Checkpointed` |
| Scheduler.NothingSelected | src/devlegate/tickets.py:47-75 | nothing is selected exactly when each todo ticket reaches, through todo tickets, a dependency in backlog, review or accepted |
| Scheduler.RunToEnd | src/devlegate/tickets.py:47-75 | selecting and marking done repeatedly stops after exactly the unblocked todo tickets, each executed once and after its dependencies |
| Scheduler.EveryTodoIsExecutable | src/devlegate/tickets.py:47-75 | with only todo and done tickets, those are all the todo tickets |
| Scheduler.FinishedRunIsComplete | src/devlegate/tickets.py:74-75 | a sound run that can select nothing more has executed exactly the executable tickets |
| Scheduler.SelectionIsSound | src/devlegate/tickets.py:74-75 | one more selection keeps a run sound |
| Scheduler.SelectedIsLeast | src/devlegate/tickets.py:49-75 | the selected ticket is the runnable one with the least id |
| Tickets.CycleSearch.Run | src/devlegate/tickets.py:149-170 | the search terminates and reports a cycle exactly when the graph has one, and the reported path is a real cycle |
| Tickets.CycleSearch.Visit | src/devlegate/tickets.py:155-167 | visiting one node keeps the colours of the depth-first search and its stack |
| Tickets.Load | src/devlegate/tickets.py:173-203 | loading succeeds exactly on unique ids and a closed acyclic graph, keeps every ticket, sorts by id, and every error is a real one |
| Tickets.CompleteOrderHasNoCycle | src/devlegate/tickets.py:149-170 | an order of all nodes with dependencies first leaves no cycle |
| Tickets.SortedStoreIsSame | src/devlegate/tickets.py:196-203 | sorting changes neither uniqueness nor the index |
| Tickets.FindDuplicate | src/devlegate/tickets.py:191-194 | a duplicate id is reported exactly when ids are not unique, and it is one |
| Framing.CutWire | src/devlegate/ipc_protocol.py:66-101 | for any payloads and any cut of their stream, exactly the whole payloads are received, then a clean end at a frame boundary and a fatal truncation elsewhere |
| Framing.Exchange | src/devlegate/ipc_protocol.py:66-101 | the same end to end, for every schedule of short writes and short reads, also when a write makes no progress; everything is sent when each does |
| Framing.SendFrame | src/devlegate/ipc_protocol.py:73-86 | the whole frame is written, or a proper prefix when a write makes no progress, or nothing when oversized |
| Framing.ReceiveFrame | src/devlegate/ipc_protocol.py:89-101 | one receive is independent of how reads are split |
| Framing.ReceivesExactly | src/devlegate/ipc_protocol.py:89-101 | over any stream: a frame exactly when it starts with one of at most the maximum size, a clean end exactly when it is over, "oversized" exactly when the big-endian header says more |
| Framing.ReadExact | src/devlegate/ipc_protocol.py:215-230 | exactly the bytes asked for, a clean end only before the first byte, a truncation otherwise |
| Packaging.Package | tools/build_distribution.py:1343-1390 | when the plan freezes, the reporter rejects no event, the events are exactly the frozen leaves in order, and it ends with everything completed or stopped at the first leaf that raised |
| Packaging.RunIsExpected | tools/build_distribution.py:1372-1390 | the same of the specification, for all components and outcomes |
| Packaging.ExpectedMeaning | tools/build_distribution.py:206-259 | success ends with completed equal to the number of steps; a failure with completed equal to the index of the one failed step |
| Packaging.ComponentEmitsFrozenLeaves | tools/build_distribution.py:290-325 | after scoping and prefixing, a component emits exactly its frozen leaves in order |
| Packaging.TreeRunIsStages | tools/build_distribution.py:300-325 | a tree emits exactly its leaves in order, up to the first that raises |
| Packaging.FeedStage | tools/build_distribution.py:206-259 | one leaf's events move an idle reporter past the leaf, or leave it where it raised |
| Packaging.Reporter.Emit | tools/build_distribution.py:206-259 | one event's effect on the reporter, rejected events leaving it as it was |
| Packaging.AcceptedInOrder | tools/build_distribution.py:206-259 | whatever events are fed to the reporter, those it accepts finish the steps of the plan in order, each once |
| Packaging.StepOfLeaf | tools/build_distribution.py:965-970 | the step of a frozen leaf names the target it is below and is identified by the leaf's id |
| Packaging.TargetPlansHaveTheShape | tools/build_distribution.py:906-962 | every plan `_target_plan` builds has the shape the theorems need |
| DeepTrees.TreeScopedExactly | tools/build_distribution.py:300-325 | for keyed trees of any depth, a tree emits exactly its frozen leaf ids in order if and only if no leaf lies more than two levels down |
| DeepTrees.ChildScopedExactly | tools/build_distribution.py:300-325 | one child's events all arrive under their own frozen ids exactly when it is a leaf, or its subtrees hold no leaves |
| DeepTrees.SubtreeIsNotSent | tools/build_distribution.py:306-325 | the ids a deeper subtree sends cannot all be scoped to its leaves, duplicates and equal keys included |
| DeepTrees.TargetChildrenAreShallow | tools/build_distribution.py:906-962 | the children of every target plan that freezes are within that depth |
| DeepTrees.AgreesOnTargets | tools/build_distribution.py:300-325 | on target plans in which every leaf succeeds, the run of nested trees is the run of `Packaging` |
| DeepTrees.OneDeepLeafEndsTheRun | tools/build_distribution.py:306-325 | in a tree with one leaf three levels down and one leaf beside it, the first event ends the run and nothing is emitted |
| PackagePlan.TreeOfTargets | tools/build_distribution.py:846-985 | the tree holds one plan per node of a dependency order of the targets, installation proved only for requested nodes; it exists exactly when no cycle is reached, and freezes exactly when every builder reached declares valid stages |
| PackagePlan.RunFreezesExactly | tools/build_distribution.py:965-985 | a packaging run over distinct targets is rejected exactly when some builder's stages are not |
| PackagePlan.TargetFreezesExactly | tools/build_distribution.py:906-962 | each target's plan is well keyed exactly when its builder's own stages are |
| ComponentTree.FreezesExactly | tools/build_progress.py:90-109 | a plan freezes, below any prefix, exactly when at every level the segments are non-empty, slash-free and distinct |
| ComponentTree.Freeze | tools/build_progress.py:90-109 | the loop of `freeze_plan` computes the recursive specification, errors included |
| ComponentTree.FrozenIds | tools/build_progress.py:90-109 | frozen ids are pairwise distinct and under their prefix, for every plan that freezes |
| ComponentTree.FreezeBelow | tools/build_progress.py:90-109 | freezing below a longer prefix puts it in front of every id |
| ComponentTree.ScopeStages | tools/build_distribution.py:306-325 | scoping a child's local events gives the parent's leaf ids |
| DependencyOrder.DependencyOrder | tools/build_distribution.py:846-861 | it fails exactly when a cycle can be reached from a target, and otherwise lists each reachable node once with dependencies first |
| DependencyOrder.Visit | tools/build_distribution.py:849-858 | one visit extends the result by what the node needs, or reports the trail that loops |
| LogTail.ReadFile | src/devlegate/log_reader.py:101-129 | the backward chunked tail returns the last lines of the whole file, for every content and count, and every error |
| LogTail.SplitLinesExactly | src/devlegate/log_reader.py:127 | the lines are the only sequence that joins to the content with every line ended by LF, CR LF or CR at its end alone and no CR LF cut in two |
| LogTail.TailsExactly | src/devlegate/log_reader.py:127-128 | for any line sequence of a content, the tail is its last lines, each decoded in its place, or fails |
| LogTail.TailOfSuffix | src/devlegate/log_reader.py:107-127 | a suffix with one LF more than its complete lines has the same last lines |
| LogTail.LinesAfterACut | src/devlegate/log_reader.py:107-127 | from any cut on, also inside CRLF, all lines but the first are lines of the whole content |
| ArArchive.ReadInvertsWrite | tools/deb_format.py:70-127 | the reader inverts the writer on any members with distinct well-formed names, field-sized numbers and a valid debian-binary |
| ArArchive.CutArchive | tools/deb_format.py:100-127 | an archive cut anywhere inside a member is refused as a bad header or a truncated payload, unless only its padding byte is missing; cut between members, it reads as the complete ones |
| ArArchive.EntryIsThere | tools/deb_format.py:105-119 | what is read at an offset has its terminated header, size field and payload there |
| ArArchive.Members | tools/deb_format.py:100-127 | the reader stops on every byte string, negative sizes included, with the specified result or error |
| ArArchive.VisitStep | tools/deb_format.py:104-121 | an offset is never visited twice, since it would repeat a name |
| ArArchive.BuiltPackageReadsBack | tools/deb_format.py:86-97 | a built package reads back as its three members |
| ArArchive.ParsePaddedSize | tools/deb_format.py:70-83 | a padded decimal size parses back |
| Zstd.RoundTrip | tools/arch_format.py:48-91 | decoding what was encoded gives the payload back, for every payload below the size limit |
| Zstd.Encode | tools/arch_format.py:48-63 | the output is the bytes of a valid frame of RFC 8878 (sections 3.1.1.1 and 3.1.1.2): descriptor, declared content size, and raw blocks within Block_Maximum_Size that hold the payload, exactly the last marked |
| Zstd.SizeFieldHolds | tools/arch_format.py:54 | the content-size field of a frame, as wide as its descriptor says, is the size in little-endian order |
| Zstd.Decode | tools/arch_format.py:66-91 | decoding stops on every input with the specified result |
| Zstd.DecodeMeaning | tools/arch_format.py:66-91 | the decoder accepts exactly the frames of the grammar it supports, with its own width of the size field, and returns their content |
| Zstd.FramesReadExactly | tools/arch_format.py:66-75 | for every frame header descriptor of RFC 8878 (section 3.1.1.1.1), the decoder returns the content of all its frames of raw blocks exactly when they are single segments without dictionary and with 4 or 8 bytes of content size |
| Zstd.WitnessIsMisread | tools/arch_format.py:66-91 | for every other descriptor, a valid frame that the decoder rejects |

## Left out

- Engine, UI and plumbing: `runtime.py` (a component that accepts a request and later returns), command
  parsing, rendering, terminal handling, project registry and installation records.
- Library code: JSON text, SHA-256, the Zstandard checksum, tar, gzip, path resolution and Git itself are parameters or abstract steps.
- Symbolic links, submodules and fsync with power loss: `write` and the workspace manager also refuse or order those.
- `_parse_worktree_porcelain`: worktree listings are already records here.
- Directory listing and parsing of ticket files and reports: `Tickets.Load` starts from parsed tickets; `ExecutionReportStore.list` would repeat `read`.
- Python's recursion limit: the depth-first searches and the JSON decoder have none here, apart from the decoder's "raises" outcome.
- Worker admission (`begin_drain`) and the run without a containment: single flags with no interleaving of interest.
- Signals in `Containment`: a signal only makes a process exit sooner, so any live process may exit at any step; that killing takes effect is not stated.
- Temporary files of `write`: only the linked names are visible; leftovers of a crash are not tracked.
- Packaging.Package: an exception between two leaves stops the run before the next leaf's start event; after the last leaf it cannot be told from success by the events.
- WorkerRun.DocumentedExactly: a terminal that raises while a record's text is shown also ends the reader; that case is in `WorkerRun.ConclusionExactly`.
- Handoff.ClientIsRight: one restart request; later requests and the client's ten-second deadline as a duration are not modelled.
- Non-blocking streams, whose reads may return None, and time: deadlines are steps that may or may not happen.
- Standalone build, download and inspection steps of packaging: their effect is the outcome of a leaf.
