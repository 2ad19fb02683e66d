# A verified model of the local daemon and its neighbours

This project models the parts of ctxindex whose correctness does not show in any single
function: the request engine of the local daemon, the ownership protocol between
processes, the client's one reconnect, and a handful of algorithms with real arithmetic
or a round trip. `dafny verify dfyconfig.toml` checks all of it.

JavaScript runs one synchronous stretch at a time, so such a stretch is one atomic step.
Each state machine has a pure state, a `Step` (or `Effect`) function and results about
every run; beside it stands a class with the fields of the original whose methods are
proved to take exactly that step (`View() == Step(old(View()), ...)`). Loops of the
original are methods with loops, proved against the function the lemmas are about. Clock
readings, random draws, failures of the file system and what other processes do are
parameters of the steps.

| module | what it models |
|---|---|
| `SecretAccess` | the FIFO shared/exclusive lock with its waiter queue |
| `StreamRendezvous` | the one-slot hand-off between a producer and its reader |
| `BusinessStream` | one streaming request: controller, producer, rendezvous, tracker entry |
| `RequestTracker` | admitted requests, lifecycle, idle timer and the release of the database |
| `AuthorizationStages` | the responses awaited by account logins |
| `FileLease`, `DaemonRuntime`, `DirectDatabase` | lease files, and the objects that take them: a starting and closing daemon, a direct opener |
| `DaemonOwnership` | all processes that share leases, metadata and socket, interleaved and crashing |
| `DaemonStart`, `SingleFlight` | polling start of a daemon, and work shared by concurrent callers |
| `ClientRetry`, `RetryProtocol` | one client invocation across the wire with its one retry, and any number of them against daemons that come and go |
| `Transfer` | one-use byte transfers with expiry and a cached total |
| `FileChunks`, `MailMessage`, `Base64`, `JsonCursor`, `SemverGate`, `RuntimeIdentity` | text windows, mail export and replies, the Base64 recogniser, cursor bounds, version precedence, the identity text |
| `CommandTokens`, `CommandRouting` | the token scanners of the command line |
| `Strings`, `Decimal` | splitting, joining and decimal rendering |

## Where the code does less than its promise

Each of these is proved with an input that shows it and, beside it, exactly when it
happens.

* A database can stay open without its lease: both `startDaemon`'s catch block and a
  failed direct `open` ignore or replace an error from closing the handle and then
  release the lease. Exclusion holds unless a live process ignored such an error
  (`DaemonOwnership.CloseFailedExactly`).
* When idle expiry begins stopping at time t, nothing was tracked after t - timeout, but
  at t - timeout itself something can have been. The closed interval is quiet exactly
  when the callback ran later than its deadline or nothing was ever tracked
  (`RequestTracker.ClosedIntervalQuietExactly`).
* A `next()` that parks while the waiter cell still names another parked call strands
  that other call for ever; nothing else strands one (`StreamRendezvous.StrandedExactly`).
* `--no-x` generated for a boolean `x` can take over the key of another option, and then
  the collected values of repeatable options differ from the validated ones; the exact
  condition is `CommandTokens.Spoils`.
* The rewriting of built-in flags does not know the `--` delimiter. Operands are lost
  exactly when, after the delimiter, its scan reaches a value option in front of a
  built-in flag (`CommandRouting.TakesBuiltin`).
* An accepted response is lost exactly when a signal had withdrawn its authorization
  stage before or the stage's announcement is refused, once the stage finishes
  (`AuthorizationStages.AcceptedIsReceivedExactly`).
* A reused stage id makes a newer stage unanswerable exactly when an older unfinished
  stage of that id is cleaned up or times out after it was opened
  (`AuthorizationStages.AcceptedExactly`).
* Two different version numbers can compare as equal, exactly when they round to one
  double (`SemverGate.NumbersDecideExactly`); a pair of versions is then compared by its
  remaining parts (`SemverGate.CompareIsPrecedenceExactly`).
* Roots with lone surrogates can share one runtime identity; exactly the roots that
  differ in nothing else (`RuntimeIdentity.SameTextExactly`).
* A reported `daemon_unavailable` can hide one execution: exactly when an undeclared
  error was heard and the request of the last call arrived at a ready daemon, be it after
  the report (`RetryProtocol.UnavailableHidesExecutionExactly`).

## Model

| member | source | states |
|---|---|---|
| SecretAccess.EveryRunIsSafe | apps/daemon/src/application.ts:1718-1754 | After any sequence of acquires and possibly repeated releases a writer excludes every other holder, the counters equal the outstanding grants, grants followed by the queue are the arrival order, and a non-empty queue has a genuinely blocked head |
| SecretAccess.BoundedBypass | apps/daemon/src/application.ts:1718-1754 | A waiter at queue index i with h grants outstanding has been granted once h + i further holders, readers or writers, released, whatever arrived in between |
| SecretAccess.ReleaseExactly | apps/daemon/src/application.ts:1733-1752 | Every holder, reader or writer, gives the lock up by releasing, and the head of the queue is granted exactly when it fits beside the remaining holders; a release by anybody else changes nothing |
| SecretAccess.AcquireExactly | apps/daemon/src/application.ts:1718-1745 | An arrival joins at the end and is granted at once exactly when nobody waits and it fits beside the holders |
| SecretAccess.RunKeepsInv | apps/daemon/src/application.ts:1718-1754 | Every run from a safe state ends in a safe state |
| SecretAccess.RunExtends | apps/daemon/src/application.ts:1720-1747 | Grants followed by the queue only ever grow at the end: no run reorders requests |
| SecretAccess.DrainMovesHead | apps/daemon/src/application.ts:1725-1754 | Draining moves the boundary between grants and queue and nothing else |
| SecretAccess.DrainRestoresInv | apps/daemon/src/application.ts:1725-1754 | From any coherent state a drain leaves no head that could still be granted, and loses no request |
| SecretAccess.HoldersCompatible | apps/daemon/src/application.ts:1726-1745 | Two different holders are both readers |
| SecretAccess.SecretAccessLock.AcquireSecretAccess | apps/daemon/src/application.ts:1718-1723 | The object takes exactly the acquire step and hands out the next arrival number |
| SecretAccess.SecretAccessLock.ReleaseSecretAccess | apps/daemon/src/application.ts:1733-1752 | The granted closure takes exactly the release step, after which its ticket holds nothing; a second call changes nothing |
| SecretAccess.SecretAccessLock.DrainSecretAccess | apps/daemon/src/application.ts:1725-1754 | The loop grants exactly the waiters the drain function grants |
| StreamRendezvous.ExactDelivery | apps/daemon/src/application.ts:275-328 | In every run the delivered events are the pushes that resolved, in push order; the one pending push is in the slot; a terminal reply comes only from an empty slot and repeats for ever |
| StreamRendezvous.ClosedForEver | apps/daemon/src/application.ts:300-306 | After close the slot stays empty, nothing more is delivered, no push stays parked and every later push is refused as closed |
| StreamRendezvous.NoLostWakeUp | apps/daemon/src/application.ts:308-327 | With one reader at a time no call is stranded, and a parked call means there is neither item nor terminal |
| StreamRendezvous.StrandedForEver | apps/daemon/src/application.ts:308-327 | A parked call the waiter cell no longer names is never resumed |
| StreamRendezvous.StrandedExactly | apps/daemon/src/application.ts:308-327 | From any state in which every parked call is the one in the waiter cell, a run strands a call exactly when some step of it parks a call (empty slot, no terminal) while the cell already names another |
| StreamRendezvous.StepKeepsInv | apps/daemon/src/application.ts:282-327 | Every push, finish, close, next and resumption keeps the delivery and wake-up invariant |
| StreamRendezvous.PushExactly | apps/daemon/src/application.ts:282-291 | A push is refused as closed, settled or occupied, in this order, or else is the pending one |
| StreamRendezvous.FateExactly | apps/daemon/src/application.ts:282-321 | A pending push resolves when a next takes it and is rejected by close alone, not by finish |
| StreamRendezvous.NextExactly | apps/daemon/src/application.ts:308-321 | A next replies with the pending push, else with the terminal, else parks |
| StreamRendezvous.FirstFinishWins | apps/daemon/src/application.ts:293-298 | In every run the terminal is the result of the first finish |
| StreamRendezvous.CallsConserved | apps/daemon/src/application.ts:308-327 | In every run each next made so far has its one reply, or is parked, or is about to run again |
| StreamRendezvous.Rendezvous.Push | apps/daemon/src/application.ts:282-291 | Takes the push step; admitted exactly when neither closed nor settled nor occupied |
| StreamRendezvous.Rendezvous.Finish | apps/daemon/src/application.ts:293-298 | Takes the finish step; only the first terminal value counts |
| StreamRendezvous.Rendezvous.Close | apps/daemon/src/application.ts:300-306 | Takes the close step and leaves the slot empty |
| StreamRendezvous.Rendezvous.Next | apps/daemon/src/application.ts:308-321 | The first stretch of next takes the next step |
| StreamRendezvous.Rendezvous.Resume | apps/daemon/src/application.ts:309-321 | A resumed next takes the resume step |
| BusinessStream.RemovedOnlyOnceAndOnlyWhenSettled | apps/daemon/src/application.ts:1776-1884 | In every run a stream leaves the tracker at most once, and only after its producer has settled and its terminal is set |
| BusinessStream.RemovedExactlyOnceWhenQuiescent | apps/daemon/src/application.ts:1776-1884 | When no callback is left to run, the stream has been removed exactly once if it was aborted or a reader took the terminal, and not at all otherwise |
| BusinessStream.AbortedForEver | apps/daemon/src/application.ts:1816-1849 | After an abort the slot is empty for ever, no producer stays parked, nothing more is delivered, and a terminal still to come is the cancelled one |
| BusinessStream.AbortLeadsToRemoval | apps/daemon/src/application.ts:1776-1849 | From every reachable aborted stream, an abort before secret access included, a history in which the waiting callbacks run in their order, whatever else happens in between, ends with exactly one removal |
| BusinessStream.EndsExactly | apps/daemon/src/application.ts:1789-1849 | After every history a stream has a terminal exactly when its producer was granted access, was over and ran its callbacks; it is cancelled if an abort or stop came before those, and else the first outcome of the service call, which is made unless an abort came before the grant |
| BusinessStream.EmitsExactly | apps/daemon/src/application.ts:1789-1792 | In every history the values offered to the reader are those emitted since the grant, all of them and in order |
| BusinessStream.CleanupExactly | apps/daemon/src/application.ts:1841-1864 | Taking the terminal, or resuming a stop once the producer is finished, completes the stream and removes it; a stop aborts and waits, but leaves a completed stream alone |
| BusinessStream.StreamStepKeepsInv | apps/daemon/src/application.ts:1776-1884 | Every event of a stream keeps its invariant |
| BusinessStream.StreamRequest.RunFinalize | apps/daemon/src/application.ts:1776-1784 | The guarded finalizer removes at most once |
| BusinessStream.StreamRequest.AbortController | apps/daemon/src/application.ts:1820-1828 | Takes the abort step: the listener closes the rendezvous the first time only |
| BusinessStream.StreamRequest.SettleProducer | apps/daemon/src/application.ts:1789-1814 | Takes the step of the producer's callbacks: the terminal is cancelled once aborted, else its own outcome |
| BusinessStream.StreamRequest.RunHook | apps/daemon/src/application.ts:1822-1825 | The callback the abort attached to the producer leaves exactly one removal |
| BusinessStream.StreamRequest.BeginStop | apps/daemon/src/application.ts:1841-1849 | stop() up to its await takes the stop step |
| BusinessStream.StreamRequest.ResumeStop | apps/daemon/src/application.ts:1845-1848 | stop() after its await leaves exactly one removal |
| BusinessStream.StreamRequest.ObserveTerminal | apps/daemon/src/application.ts:1859-1863 | The reader of the terminal leaves exactly one removal |
| RequestTracker.RequestKeysDiffer | apps/daemon/src/application.ts:1655-1660 | Tracker keys are unique whatever the request ids contain, so an admission never overwrites an entry |
| RequestTracker.RunningIsTracked | apps/daemon/src/application.ts:1667-1703 | In every run a request whose service call runs is in the tracker, business requests and streams alike, although entries are deleted without looking at the call |
| RequestTracker.ClosedOnlyWhenDrained | apps/daemon/src/runtime.ts:689-695 | Whenever the transfer store and the database are closed the lifecycle is stopping, nothing is tracked and the service call of every request ever admitted is over |
| RequestTracker.NothingTrackedAfterRelease | apps/daemon/src/runtime.ts:689-708 | Once released, no later history tracks a request again |
| RequestTracker.LeavesOnlyWhenSettled | apps/daemon/src/application.ts:1667-1784 | In every history a request that was tracked and is tracked no longer was removed by its own cleanup, and its service call is over |
| RequestTracker.AdmittedExactly | apps/daemon/src/application.ts:1643-1661 | After every history a request is admitted exactly when the daemon is ready, under a new key, of the kind asked for, un-aborted and waiting |
| RequestTracker.AdvanceExactly | apps/daemon/src/application.ts:1662-1703 | The service call of a business request runs from the step that begins an un-aborted one to the step that settles it, and its entry is deleted only after |
| RequestTracker.StopAbortsExactly | apps/daemon/src/application.ts:930-940 | After every history stopping aborts every tracked request and no other |
| RequestTracker.ReleasedExactly | apps/daemon/src/runtime.ts:689-695 | After every history the next drain test and what follows it close the transfer store and the database exactly when the daemon is stopping and nothing is tracked |
| RequestTracker.LiveTimerExactlyWhenIdle | apps/daemon/src/application.ts:1886-1925 | After any history, stale, early and repeated callbacks included, a live timer exists exactly when the daemon is ready and tracks nothing; it is of the current generation, and when there is none every timer ever filed is of an earlier generation |
| RequestTracker.ExpiryExactly | apps/daemon/src/application.ts:1905-1915 | After every history a callback of a current timer begins stopping exactly when its deadline has come, however late it runs; an early one leaves a live timer with the same deadline; an outdated one does nothing |
| RequestTracker.LifecycleExactly | apps/daemon/src/application.ts:923-940 | After every history the daemon becomes ready by markReady alone and stops by beginStopping or by a due timer alone |
| RequestTracker.IdleExpiryFollowsQuiet | apps/daemon/src/application.ts:1892-1918 | With a monotone clock, when idle expiry stops the daemon at t every busy state had ended by t - timeout |
| RequestTracker.IdleExpiryFollowsAdmissions | apps/daemon/src/application.ts:1892-1918 | ... and every admission had happened by t - timeout |
| RequestTracker.ClosedIntervalQuietExactly | apps/daemon/src/application.ts:1905-1918 | When idle expiry stops the daemon at t, nothing was tracked at t - timeout either exactly when the callback ran later than its deadline or nothing had ever been tracked |
| RequestTracker.DeadlineEndsWork | apps/daemon/src/application.ts:1892-1918 | In every history the deadline of a current timer is the end of some busy state plus one interval or, when nothing was ever tracked, the moment the daemon became ready plus one interval |
| RequestTracker.QuietIntervalIsOpenOnTheLeft | apps/daemon/src/application.ts:1892-1918 | A history in which a request is tracked at t - timeout exactly and idle expiry still stops the daemon at t |
| RequestTracker.DeadlinesAlwaysFollowWork | apps/daemon/src/application.ts:1892-1918 | In every history a timer of the current generation expires at least one interval after the end of every busy state |
| RequestTracker.EffectKeepsInv | apps/daemon/src/application.ts:923-940 | Every action keeps key uniqueness, timer exactness and drain exactness |
| RequestTracker.AlwaysInv | apps/daemon/src/application.ts:923-948 | Every history satisfies that invariant |
| RequestTracker.DaemonApplication.BecomeReady | apps/daemon/src/application.ts:923-928 | Takes the ready step, or refuses exactly when not starting |
| RequestTracker.DaemonApplication.AdmitRequest | apps/daemon/src/application.ts:1643-1661 | Admits exactly when ready, under a key not in use |
| RequestTracker.DaemonApplication.AdvanceBusiness | apps/daemon/src/application.ts:1662-1703 | Takes the step of a business request; its cleanup deletes exactly its own entry, which is there |
| RequestTracker.DaemonApplication.FlowStream | apps/daemon/src/application.ts:1776-1884 | Takes the step of a stream; the entry is deleted exactly where the stream counts its removal |
| RequestTracker.DaemonApplication.ForgetKey | apps/daemon/src/application.ts:1698-1703 | Deletes the entry and re-arms the idle timer |
| RequestTracker.DaemonApplication.StopAccepting | apps/daemon/src/application.ts:930-940 | Takes the stopping step and says whether it was already stopping |
| RequestTracker.DaemonApplication.EnterStopping | apps/daemon/src/application.ts:930-940 | Aborts every tracked request, disarms the timer and notifies the runtime once |
| RequestTracker.DaemonApplication.IdleCallback | apps/daemon/src/application.ts:1905-1915 | A timer callback, however stale, early or late, takes exactly the timer step; a current one begins stopping exactly when due and otherwise files its deadline again |
| RequestTracker.DaemonApplication.ObserveDrain | apps/daemon/src/application.ts:942-948 | The drain loop is left exactly when nothing is tracked |
| RequestTracker.DaemonApplication.Release | apps/daemon/src/runtime.ts:691-694 | Resources are released only with nothing tracked and the lifecycle stopping |
| RequestTracker.DaemonApplication.Arm | apps/daemon/src/application.ts:1892-1898 | Arms one full interval from now exactly when ready and idle |
| RequestTracker.DaemonApplication.Schedule | apps/daemon/src/application.ts:1900-1918 | Files a timer of the current generation with this deadline |
| RequestTracker.DaemonApplication.Disarm | apps/daemon/src/application.ts:1920-1925 | Starts a new generation, so that no earlier timer is live |
| AuthorizationStages.AcceptedExactly | apps/daemon/src/application.ts:1061-1130 | In every run, ids reused or not, a response is accepted for a stage exactly when the stage has the id, is not answered, expired or finished, and no older unfinished stage of the same id was cleaned up or timed out since it was opened |
| AuthorizationStages.FreshIdsAreNeverForgotten | apps/daemon/src/application.ts:1061-1108 | If no id is used twice, no stage is ever forgotten that way |
| AuthorizationStages.AcceptedAtMostOnce | apps/daemon/src/application.ts:1122-1129 | After a stage accepted a response no later run accepts another for it, under any id and however ids are reused |
| AuthorizationStages.AcceptedIsReceivedExactly | apps/daemon/src/application.ts:1076-1110 | An accepted response is returned to the login exactly when the stage finishes, no signal had withdrawn it before, and its announcement went out; a withdrawn one never is |
| AuthorizationStages.SettledForEver | apps/daemon/src/application.ts:1067-1092 | The first settlement of a stage decides what it returns |
| AuthorizationStages.SettledExactly | apps/daemon/src/application.ts:1067-1092 | In every run a stage is settled as the first response accepted for it, signal or timer settles it |
| AuthorizationStages.AnnouncedExactly | apps/daemon/src/application.ts:1093-1099 | In every run a stage counts as announced exactly when the first settlement of its event was a delivery |
| AuthorizationStages.FinishExactly | apps/daemon/src/application.ts:1093-1108 | The finally block runs exactly when the announcement was refused, or it went out and the promise is settled |
| AuthorizationStages.NothingLeftBehind | apps/daemon/src/application.ts:1093-1108 | In every run a finished stage cannot be answered and is settled or was refused its announcement, and when all are finished the map is empty |
| AuthorizationStages.ReusedIdForgetsTheNewerStage | apps/daemon/src/application.ts:1061-1108 | A history with a reused id in which the cleanup of the old stage removes the newer one |
| AuthorizationStages.PendingResponses.OpenStage | apps/daemon/src/application.ts:1061-1075 | Opens a stage exactly when the id is not pending |
| AuthorizationStages.PendingResponses.AccountRespond | apps/daemon/src/application.ts:1115-1133 | Accepts exactly when an answerable stage of this id exists |
| AuthorizationStages.PendingResponses.ExpireStage | apps/daemon/src/application.ts:1082-1092 | The timer withdraws the stage and fails it unless it is settled |
| AuthorizationStages.PendingResponses.FinishStage | apps/daemon/src/application.ts:1103-1108 | The finally block leaves no entry under the stage's id |
| FileLease.ExclusiveIsAlone | packages/local-daemon/src/lease.ts:451-472 | An exclusive holder is the only holder |
| FileLease.CompatibleExactly | packages/local-daemon/src/lease.ts:374-472 | A mode is granted exactly when one more holder in it leaves every exclusive holder alone |
| FileLease.LeaseFile.Acquire | packages/local-daemon/src/lease.ts:374-500 | Succeeds exactly when the mode is compatible with the holders, and then adds exactly one holder under an unused descriptor |
| FileLease.RetainedLease.Release | packages/local-daemon/src/lease.ts:492-496 | Frees the lease once; a second call changes nothing even when the descriptor number has been given to another holder |
| FileLease.RetainedLease.AssertRetained | packages/local-daemon/src/lease.ts:517-533 | Passes exactly for an active lease of this very request; an exclusive one is then the only holder |
| FileLease.RetainedLease.AssertDatabaseTarget | packages/local-daemon/src/lease.ts:503-515 | Passes exactly for an active database lease whose target checks pass; any other holder is then shared |
| DaemonRuntime.Daemon.Start | apps/daemon/src/runtime.ts:639-830 | A start serves exactly when both lease files are free and no call throws, ends with both lease files as before otherwise, and leaves exactly the metadata, socket and open handle the throwing calls account for |
| DaemonRuntime.Daemon.TryStart | apps/daemon/src/runtime.ts:710-803 | Exactly which leases, handle, listener, metadata and socket exist after the try block, for every call that may throw |
| DaemonRuntime.Daemon.Rollback | apps/daemon/src/runtime.ts:804-830 | The catch block gives up both leases, removes the metadata it wrote and the socket unless their removal throws, changes no other file, and leaks the handle exactly when closing it throws |
| DaemonRuntime.Daemon.Finalize | apps/daemon/src/runtime.ts:689-708 | Succeeds exactly when no call throws, and then leaves no lease, handle, metadata or socket; a rejected one keeps both leases and exactly the files not yet removed |
| DaemonRuntime.Daemon.CleanupMetadata | packages/local-daemon/src/discovery.ts:371-417 | Removes metadata exactly when it is this daemon's own |
| DirectDatabase.Ownership.Open | apps/cli/src/direct-database.ts:144-158 | Refuses exactly after a close, opens exactly when no check or call throws, and keeps no handle otherwise |
| DirectDatabase.Ownership.Close | apps/cli/src/direct-database.ts:159-165 | Works once: frees exactly its own lease with the handle closed, or keeps both when closing throws |
| DirectDatabase.OpenLeasedDatabase | apps/cli/src/direct-database.ts:169-183 | Succeeds exactly when the shared lease is compatible and nothing throws, else leaves the lease file as it was; the exact condition for a leaked handle |
| DaemonOwnership.DaemonOwnsItsDatabase | apps/daemon/src/runtime.ts:689-830 | In every run with crashes anywhere, a daemon with the database open is the only holder of the database lease, and any other open handle belongs to a process that ignored a close error |
| DaemonOwnership.ExclusiveUnlessCloseErrorIgnored | apps/daemon/src/runtime.ts:804-830 | Two processes, one a daemon, have the database open only if one of them ignored an error from closing it and has not crashed since |
| DaemonOwnership.OpenWithoutLeaseExactly | apps/cli/src/direct-database.ts:144-165 | A handle is open without its lease exactly when closing it threw and was ignored and the lease was given up |
| DaemonOwnership.CloseFailedExactly | apps/daemon/src/runtime.ts:810-812 | A process carries such a handle exactly when its history has an ignored close error that no crash followed |
| DaemonOwnership.CloseErrorIgnoredBreaksExclusion | apps/daemon/src/runtime.ts:804-830 | A concrete run that ends with two daemons that both have the database open |
| DaemonOwnership.LeftOpenHandleIsJoined | apps/daemon/src/runtime.ts:710-803 | Whoever left a handle open, a fresh daemon opens the database beside it once no lease is held |
| DaemonOwnership.PublishedIsOnDisk | apps/daemon/src/runtime.ts:675-687 | In every run metadata a live daemon published and neither removed nor gave up is the metadata on disk, under its exclusive lifecycle lease; so is its bound socket; a serving daemon has both |
| DaemonOwnership.OthersLeaveItAlone | packages/local-daemon/src/discovery.ts:371-417 | No step of any other process removes or replaces that metadata or socket |
| DaemonOwnership.CleanerRemovesOnlyStale | apps/cli/src/daemon/lifecycle.ts:359-386 | A cleaner about to remove metadata removes what it saw and what no live process claims |
| DaemonOwnership.CleanerCleans | apps/cli/src/daemon/lifecycle.ts:359-386 | When nobody holds the lifecycle lease, a cleaner whose steps succeed removes stale metadata and socket and gives the lease back |
| DaemonOwnership.CloseLeavesNothing | apps/daemon/src/runtime.ts:689-708 | When an orderly close frees the lifecycle lease its database is closed, its database lease free, and metadata and socket are already gone |
| DaemonOwnership.CloseCompletes | apps/daemon/src/runtime.ts:689-708 | A serving daemon whose closing steps succeed is done after them, with its database closed, both leases free and both files gone |
| DaemonOwnership.MutationExcludesDaemons | apps/cli/src/extensions/daemon-coordination.ts:34-64 | While a mutation operates no daemon has the database open unless it ignored a close error; when the mutation restarts the daemon its own lease is free and its handle closed |
| DaemonOwnership.FreshDaemonRecovers | apps/daemon/src/runtime.ts:710-803 | Whatever files crashes left behind, once no lease is held a fresh daemon whose steps succeed gets to serving, published and bound |
| DaemonOwnership.OpenerOpensExactly | apps/cli/src/direct-database.ts:144-183 | A direct opener whose steps succeed has the database open under a shared lease exactly when the lease was compatible, and leaves the lease file as it was |
| DaemonOwnership.EveryProcessEnds | apps/daemon/src/runtime.ts:689-830 | Whatever its outcomes and whatever others do, a process that took 18 steps without crashing is stuck on closing or done, and a done one holds no lease and no handle but one whose close error it ignored |
| DaemonOwnership.FailedStartRollsBack | apps/daemon/src/runtime.ts:804-830 | In every run a start that fails at any statement and whose catch block succeeds ends with no handle and no lease, without its metadata and, once it had the lifecycle lease, without a socket |
| DaemonOwnership.FinalizeFails | apps/daemon/src/runtime.ts:689-708 | A close that fails before the leases are freed keeps both, and all it has not removed |
| DaemonOwnership.StopsListening | apps/daemon/src/runtime.ts:696-697 | Stopping the listener may unlink the socket, and only that |
| DaemonOwnership.OpenerFails | apps/cli/src/direct-database.ts:144-183 | An opener that fails to open or migrate gives its lease back without a handle, unless closing it fails too; one that fails to close keeps both |
| DaemonOwnership.MutationBranches | apps/cli/src/extensions/daemon-coordination.ts:34-64 | A mutation stops a daemon only when one runs, and operates exactly when it then gets its shared lease |
| DaemonOwnership.CleanerFails | apps/cli/src/daemon/lifecycle.ts:359-386 | A cleaner whose check or removal fails leaves the files alone and gives its lease back |
| DaemonOwnership.StepKeepsInv | apps/daemon/src/runtime.ts:689-830 | Every step of every process, and every crash, keeps the ownership invariant and touches only its own process and, under the exclusive lifecycle lease, the two files |
| DaemonOwnership.RunKeepsInv | apps/daemon/src/runtime.ts:689-830 | Every run keeps that invariant |
| DaemonStart.StartIsBounded | apps/cli/src/daemon/lifecycle.ts:526-638 | If every sleep lasts its time, a start makes at most 401 polls in both loops together and begins none after its deadline |
| DaemonStart.LaunchedOnlyWhenFree | apps/cli/src/daemon/lifecycle.ts:581-627 | A daemon is launched at most once, and only when no ready one answered and no owner had to be awaited or it was seen to be gone |
| DaemonStart.RunningWasSeen | apps/cli/src/daemon/lifecycle.ts:581-638 | A start reports running only if a daemon answered ready in time, and started exactly when it launched one |
| DaemonStart.OwnerLoopExactly | apps/cli/src/daemon/lifecycle.ts:546-579 | The wait for another owner goes on while no poll decides it, and the first that does ends it as cancelled, ready, failed, released or out of time |
| DaemonStart.ReadyLoopExactly | apps/cli/src/daemon/lifecycle.ts:526-544 | The wait for the launched daemon goes on while no poll is cancelled, fails or answers ready, and the first that does ends it so |
| DaemonStart.StartExactly | apps/cli/src/daemon/lifecycle.ts:581-638 | Exactly when a start launches, how many polls it makes, and when it reports a daemon as started, as running, itself as cancelled, or raises |
| DaemonStart.WaitForOwnerReleaseOrReady | apps/cli/src/daemon/lifecycle.ts:546-579 | The loop ends as, and after as many polls as, its specification says |
| DaemonStart.WaitForReady | apps/cli/src/daemon/lifecycle.ts:526-544 | The loop ends as, and after as many polls as, its specification says |
| DaemonStart.StartOnce | apps/cli/src/daemon/lifecycle.ts:581-638 | The whole start has the specified outcome, launches and polls |
| SingleFlight.FlightsNeverOverlap | apps/cli/src/daemon/ensure.ts:113-129 | In every run, when a later flight of a key exists every earlier one is settled and forgotten |
| SingleFlight.CallerJoinsExactly | apps/cli/src/daemon/ensure.ts:117-128 | A caller joins the flight of its key that is not forgotten, and starts one exactly when there is none |
| SingleFlight.IdentityCheckNeverFails | apps/cli/src/daemon/lifecycle.ts:647-651 | The identity check of the cleanup always finds the flight it filed |
| SingleFlight.FlightExactly | apps/cli/src/daemon/ensure.ts:117-128 | After any run a flight is settled by the end of its work alone and forgotten by the callback that follows, which frees its key |
| SingleFlight.Ensurer.AskFor | apps/cli/src/daemon/ensure.ts:117-122 | Takes the asking step and starts work exactly when the key is not in flight |
| SingleFlight.Ensurer.RunClear | apps/cli/src/daemon/ensure.ts:123-126 | Takes the clearing step |
| RetryProtocol.EveryInvocationAtMostOnce | apps/cli/src/daemon/client.ts:255-285 | In every run of any clients and daemons, however late requests arrive and answers are lost, one invocation makes at most two calls, at most one is ever admitted, a second follows only a refusal before admission, and a success was executed exactly once |
| RetryProtocol.SucceedsExactly | apps/cli/src/daemon/client.ts:255-285 | In every run an invocation has succeeded exactly when it heard, un-aborted, the answer of its last call after the work of that call, admitted by a ready daemon, had ended un-aborted with a well-formed value |
| RetryProtocol.HearingExactly | apps/cli/src/daemon/client.ts:255-285 | A client that hears something calls again exactly when its first call was answered as unavailable and it has a reconnect; else it is finished as cancelled, as unavailable or with the very answer |
| RetryProtocol.ReconnectingExactly | apps/cli/src/daemon/client.ts:270-276 | A reconnecting client makes its second call, or fails as its reconnect did |
| RetryProtocol.DaemonExactly | apps/daemon/src/application.ts:923-940 | A daemon is ready from the moment it becomes so after its launch until it begins stopping or dies |
| RetryProtocol.DropExactly | apps/cli/src/daemon/client.ts:463-471 | Only a request still on the wire can be dropped |
| RetryProtocol.DroppedForEver | apps/cli/src/daemon/client.ts:463-471 | A request that was dropped on the wire never arrives |
| RetryProtocol.UnavailableHidesExecutionExactly | apps/cli/src/daemon/client.ts:463-488 | In every run an invocation that reported the daemon unavailable has an execution exactly when it heard an undeclared error and the request of its last call arrived, before or after the report, at a ready daemon |
| RetryProtocol.ExecutedExactly | apps/daemon/src/application.ts:535-549 | In every run a call was admitted exactly when its request once arrived at a daemon that was ready for it |
| RetryProtocol.HeardRefusalNeverExecutes | apps/cli/src/daemon/client.ts:255-285 | An invocation that heard a refusal and reported the daemon unavailable is executed in no continuation of the run |
| RetryProtocol.FinishedForEver | apps/cli/src/daemon/client.ts:255-285 | What a finished invocation reported never changes |
| RetryProtocol.LateArrivalStillExecutes | apps/cli/src/daemon/client.ts:463-471 | A run in which work begins after its client has reported the daemon unavailable |
| RetryProtocol.RunKeepsInv | apps/cli/src/daemon/client.ts:255-285 | In every run a second call is made or prepared only while the first stands refused as unavailable |
| RetryProtocol.RetryMeansDenied | apps/cli/src/daemon/ensure.ts:158-167 | Only a refusal before admission that was heard makes a client reconnect, whatever work an admitted request does and however it fails |
| ClientRetry.UnavailableOnlyBeforeAdmission | apps/daemon/src/application.ts:535-549 | The daemon says unavailable exactly when it refused before admission because of its lifecycle |
| ClientRetry.AnswerExactly | packages/rpc/src/router.ts:114-130 | The daemon answers a value exactly for un-aborted, well-formed work of a ready, compatible daemon, and every other arrival with the failure of the first thing that went wrong |
| ClientRetry.OutcomeExactly | apps/cli/src/daemon/client.ts:255-285 | An invocation succeeds exactly when it is not aborted and its last call gets a good answer; otherwise it fails as the reconnect did, as cancelled, as unavailable or as the daemon answered |
| ClientRetry.DeclaredErrorsRoundTrip | apps/cli/src/daemon/client.ts:473-488 | The client recognises exactly the errors the router declares and gets back the very failure |
| ClientRetry.Daemons.Serve | packages/rpc/src/router.ts:114-130 | One call answers as specified, is fulfilled exactly by a good answer, and counts its admitted execution |
| ClientRetry.Daemons.RunInvoke | apps/cli/src/daemon/client.ts:255-285 | The client as it runs has the specified outcome, calls and executions, adds at most one execution and succeeds exactly on a good answer to its last call un-aborted; one it reports as unavailable was executed exactly when the reply of its last call was lost and that call was admitted |
| ClientRetry.Daemons.RunInvokeOnce | apps/cli/src/daemon/client.ts:287-305 | invokeOnce calls exactly once |
| Transfer.AlwaysInv | apps/daemon/src/transfer.ts:57-99 | After every sequence of calls and any clock the cached total, which is only ever changed by the size of an entry that comes or goes, is the sum of the pending sizes and at most the maximum |
| Transfer.CallKeepsInv | apps/daemon/src/transfer.ts:57-99 | Every single call keeps the cached total exact |
| Transfer.RefusedForSizeExactly | apps/daemon/src/transfer.ts:58-61 | The test against the cached number refuses a create exactly when the true sizes of the unexpired entries and the new bytes together exceed the maximum |
| Transfer.CreatedExactly | apps/daemon/src/transfer.ts:57-76 | A create succeeds exactly when the bytes fit, the expiry is a safe integer and some draw is free after taken ones of the right length; it then adds exactly these bytes under that ticket; its expiry is refused exactly when only that is wrong before the draws |
| Transfer.DeliveredExactly | apps/daemon/src/transfer.ts:78-85 | In every run a consume delivers exactly when a creation under its ticket is live and unexpired, and delivers that creation's payload unchanged |
| Transfer.HandedOutAtMostOnce | apps/daemon/src/transfer.ts:78-85 | No created payload is handed out twice and no consume hands out two |
| Transfer.NotCreatedWhileLive | apps/daemon/src/transfer.ts:65-75 | A ticket is not given out again while its transfer is live and unexpired |
| Transfer.NoTicketExactly | apps/daemon/src/transfer.ts:65-75 | The attempts are exhausted exactly when every draw has 32 bytes and its ticket is pending |
| Transfer.HexInjective | apps/daemon/src/transfer.ts:69 | Different draws give different tickets |
| Transfer.TicketExactly | apps/daemon/src/transfer.ts:69-72 | The pattern of tickets matches exactly what draws of 32 bytes give |
| Transfer.ByteTransferStore.CreateTransfer | apps/daemon/src/transfer.ts:57-76 | Takes the create step and keeps a fresh copy of the caller's bytes |
| Transfer.ByteTransferStore.ConsumeTransfer | apps/daemon/src/transfer.ts:78-85 | Takes the consume step; the array handed out is no longer kept |
| Transfer.ByteTransferStore.Prune | apps/daemon/src/transfer.ts:92-99 | Leaves exactly the unexpired entries and their total |
| Transfer.ByteTransferStore.CloseStore | apps/daemon/src/transfer.ts:87-90 | Leaves nothing |
| FileChunks.WindowArithmetic | packages/profiles/src/file.ts:20-48 | Windows are at most 3000 long, start at the offset and end with the text, advance by at least 552 and overlap by exactly 200 |
| FileChunks.WindowEndExactly | packages/profiles/src/file.ts:20-42 | A window ends after its last paragraph break past half the target, failing that before its last heading, failing that after its last newline, failing all at the target |
| FileChunks.WindowCount | packages/profiles/src/file.ts:20-48 | A text of length n >= 1 uses at most 1 + (n - 1) / 552 windows |
| FileChunks.ShortRangeInOneWindow | packages/profiles/src/file.ts:20-48 | Every range of at most 201 units lies inside one window |
| FileChunks.LongerRangeMayBeSplit | packages/profiles/src/file.ts:20-48 | 201 is sharp: every text of 1502 units or more without newlines splits a range of 202 |
| FileChunks.ShortPartsSurvive | packages/profiles/src/file.ts:13-51 | Every part of at most 201 units that starts and ends with non-space lies whole in a chunk, despite trimming and dropped blank windows |
| FileChunks.NonSpaceUnitsSurvive | packages/profiles/src/file.ts:13-51 | Every non-space unit of the text is in a chunk |
| FileChunks.ChunksAreTrimmedPieces | packages/profiles/src/file.ts:44-45 | Every chunk is a non-empty trimmed piece of the text, numbered by its place |
| FileChunks.ChunkText | packages/profiles/src/file.ts:13-51 | The function returns exactly the trimmed non-blank windows |
| FileChunks.ChunkWindows | packages/profiles/src/file.ts:20-48 | The loop visits exactly the specified windows |
| MailMessage.EmlReadsBack | packages/profiles/src/mail-message.ts:95-120 | The first empty line separates exactly the header list from the normalised body text, which has the lines of the payload text, and splitting the header part on CRLF gives back every line |
| MailMessage.FieldsReadBack | packages/profiles/src/mail-message.ts:95-120 | Looking a field up in a rendered message gives the sanitized value of the payload under that name, and none when it has none |
| MailMessage.AddressesReadBack | packages/profiles/src/mail-message.ts:100-103 | An address header is there exactly when the payload has those addresses, and cut at its commas gives back every address, sanitized, when none has a comma |
| MailMessage.EmlIsPaired | packages/profiles/src/mail-message.ts:91-120 | In the whole message CR and LF occur only as CRLF pairs |
| MailMessage.FieldReadsBack | packages/profiles/src/mail-message.ts:97-99 | A header line reads back as its name and its value, colons in the value included |
| MailMessage.NormalizeFixesExactlyPaired | packages/profiles/src/mail-message.ts:118 | Normalising changes nothing exactly when line breaks are already paired |
| MailMessage.NormalizeIsIdempotent | packages/profiles/src/mail-message.ts:118 | Normalising twice is normalising once |
| MailMessage.NormalizeKeepsLines | packages/profiles/src/mail-message.ts:118 | Normalising keeps every line of the text, whatever breaks end them |
| MailMessage.SanitizeHeader | packages/profiles/src/mail-message.ts:91-93 | The result has no line breaks, and a value without any is unchanged |
| MailMessage.SanitizedRun | packages/profiles/src/mail-message.ts:91-93 | Sanitizing replaces every run of breaks by one space and keeps everything else |
| MailMessage.RenderEmlLoop | packages/profiles/src/mail-message.ts:95-120 | Pushing the headers one by one gives the specified message |
| MailMessage.ReplySubjectIsIdempotent | packages/profiles/src/mail-message.ts:156-161 | Deriving a reply subject twice is deriving it once, and no further reply prefix follows its Re: |
| MailMessage.ReplyPrefixExactly | packages/profiles/src/mail-message.ts:156-161 | A reply prefix is recognised exactly where one is spelt, in any case and spacing |
| MailMessage.ReplySubjectExactly | packages/profiles/src/mail-message.ts:156-161 | A subject without a prefix is kept, trimmed, after Re:; one with a prefix gives what it gives without |
| MailMessage.DistinctExactly | packages/profiles/src/mail-message.ts:163-168 | The derived references have the same elements, none twice, in order of first occurrence |
| MailMessage.ReplyReferencesAreIdempotent | packages/profiles/src/mail-message.ts:163-168 | Replying again to the same message adds nothing |
| Base64.RecognisesExactlyTheEncodings | packages/rpc/src/schemas.ts:98-121 | The recogniser answers n exactly when the string is the encoding of a non-empty byte sequence of length n, and no string encodes two |
| Base64.RecogniserIsCanonical | packages/rpc/src/schemas.ts:106-121 | It accepts exactly the non-empty canonical strings |
| Base64.DecodeThenEncode | packages/rpc/src/schemas.ts:106-121 | Encoding what a canonical string decodes to gives the string |
| Base64.EncodeThenDecode | packages/rpc/src/schemas.ts:98-121 | Every encoding is canonical and decodes to its bytes |
| Base64.CanonicalLength | packages/rpc/src/schemas.ts:114-120 | The length formula is the length of the decoded bytes |
| JsonCursor.BoundedExactly | packages/rpc/src/schemas.ts:794-858 | A value is accepted exactly when it is sound throughout and unfolds to a finite tree of at most 2048 values, 8 levels and 16384 bytes of JSON text: sharing counts each time, cycles are refused |
| JsonCursor.IsBoundedJsonCursor | packages/rpc/src/schemas.ts:794-858 | The traversal followed by the length test answers as specified |
| JsonCursor.ActiveSetIsRedundant | packages/rpc/src/schemas.ts:798-848 | Without the set of containers being visited the answer would be the same for every value |
| JsonCursor.VisitLoop | packages/rpc/src/schemas.ts:801-849 | The recursive traversal with its shared counter answers as specified |
| JsonCursor.CountThreadNodes | packages/rpc/src/schemas.ts:1706-1720 | The worklist accepts exactly the forests of at most 1024 nodes and never visits more than one node too many |
| SemverGate.CompareIsPrecedence | scripts/release/library-release-gate.ts:119-142 | Unless the first parts that differ are numbers that round to one double, the sign of the comparison is the precedence of section 11 of Semantic Versioning 2.0.0, zero exactly for equal core and prerelease |
| SemverGate.CompareIsPrecedenceExactly | scripts/release/library-release-gate.ts:119-142 | For any two versions the comparison is that precedence exactly when replacing the core numbers that round to the same double as the other's changes neither way of preceding and no prerelease numbers collapse then |
| SemverGate.NumbersDecideExactly | scripts/release/library-release-gate.ts:119-142 | Two different numbers order all versions that first differ in them exactly when they round to different doubles |
| SemverGate.DoubleMonotone | scripts/release/library-release-gate.ts:112-114 | Rounding a number to a double never reverses an order |
| SemverGate.RoundedIsNearest | scripts/release/library-release-gate.ts:112-114 | Rounding goes to a nearest multiple of the unit and of two to the even one |
| SemverGate.CompareIsAStrictOrder | scripts/release/library-release-gate.ts:119-142 | For all versions the comparison is antisymmetric and transitive |
| SemverGate.ParsesExactly | scripts/release/library-release-gate.ts:68-117 | A text is accepted as a version exactly when the version is well formed and renders to it |
| SemverGate.LargeNumbersCollapse | scripts/release/library-release-gate.ts:112-114 | Two versions that differ at 2^53 compare as equal |
| SemverGate.CandidateExactly | scripts/release/library-release-gate.ts:144-183 | Unless the versions collapse that way, a release candidate is produced exactly for a strictly greater version that the registry does not know or confirms, and carries that version and its archive; nothing is released exactly for the same version and any other is refused as not greater |
| SemverGate.CompareSemverLoop | scripts/release/library-release-gate.ts:119-142 | The loop over identifiers gives the specified comparison |
| RuntimeIdentity.SameTextExactly | packages/local-daemon/src/identity.ts:83-94 | Two tuples of roots are hashed from the same bytes exactly when the four roots agree one by one, lone surrogates aside |
| RuntimeIdentity.RootsAreDetermined | packages/local-daemon/src/identity.ts:83-94 | On well-formed roots the encoding is injective |
| RuntimeIdentity.WellFormedExactly | packages/local-daemon/src/identity.ts:26-28 | Well formed are exactly the strings in which every surrogate is one of a pair |
| RuntimeIdentity.LoneSurrogatesCollide | packages/local-daemon/src/identity.ts:26-28 | Two different tuples with lone surrogates have the same bytes |
| RuntimeIdentity.FramePrefix | packages/local-daemon/src/identity.ts:90-92 | What follows a length-prefixed member cannot be taken for a part of it |
| RuntimeIdentity.Utf8Injective | packages/local-daemon/src/identity.ts:27 | UTF-8 tells scalar value sequences apart |
| RuntimeIdentity.ScalarLength | packages/local-daemon/src/identity.ts:27 | Every scalar value has its shortest UTF-8 encoding |
| CommandTokens.AcceptedExactly | apps/cli/src/command-model.ts:150-220 | A token list is accepted exactly when it is the rendering of a well-formed line whose operands fit the declared positionals, and of only one such line |
| CommandTokens.ParseIsWellFormed | apps/cli/src/command-model.ts:162-205 | What the scanner reads is well formed and renders to the tokens |
| CommandTokens.WellFormedParses | apps/cli/src/command-model.ts:162-205 | Every well-formed line is read back as the items it was written from |
| CommandTokens.CollectedExactly | apps/cli/src/command-model.ts:222-252 | On accepted lists, unless a generated negation spoils the definitions, every repeatable option is given exactly its values in order of occurrence |
| CommandTokens.DistinctNegationsNeverSpoil | apps/cli/src/command-model.ts:121-137 | Negations distinct from all names and aliases never spoil them |
| CommandTokens.ScansAgreeExactly | apps/cli/src/command-model.ts:121-252 | The two scans agree on every token list exactly when no generated negation spoils the collection |
| CommandTokens.SwallowsDelimiter | apps/cli/src/command-model.ts:128-134 | The token list on which a shadowed repeatable option is given the delimiter as a value |
| CommandTokens.SwallowsValue | apps/cli/src/command-model.ts:236-250 | The token list on which another shadowed option swallows a repeatable option's value |
| CommandTokens.MapsAlwaysRelate | apps/cli/src/command-model.ts:121-137 | The two option maps differ only where a generated negation is the last to set a key |
| CommandTokens.AllOptionsExactly | apps/cli/src/command-model.ts:121-137 | A key stands for the last definition that may be written with it: by its name, an alias, or the negation of a boolean that is on by default or describes one |
| CommandTokens.KeyExactly | apps/cli/src/command-model.ts:139-148 | A token names an option by two dashes and any name, or by one dash and a single character |
| CommandTokens.RefusedExactly | apps/cli/src/command-model.ts:174-205 | Exactly why an option token is refused: unknown, given again, a boolean with a value, or a value option without one |
| CommandTokens.PositionalsExactly | apps/cli/src/command-model.ts:155-158 | Every positional definition, and no other, counts as one, in order |
| CommandTokens.BuildOptionMap | apps/cli/src/command-model.ts:121-137 | The loop builds the specified option map |
| CommandTokens.ValidateTokens | apps/cli/src/command-model.ts:150-220 | The loop reports exactly the specified error, or none |
| CommandTokens.CollectMultipleValues | apps/cli/src/command-model.ts:222-252 | The loop collects exactly the specified lists |
| CommandRouting.SubCommandIsFirstOperand | apps/cli/src/command-model.ts:568-591 | The search for the sub-command takes an accepted line apart as its validation does and stops at the first operand that only options precede |
| CommandRouting.SubCommandIndex | apps/cli/src/command-model.ts:568-591 | The loop returns the specified index |
| CommandRouting.FindSubCommandExactly | apps/cli/src/command-model.ts:499-517 | A sub-command is found by its name, and by an alias only when no child has the name; the first such child counts |
| CommandRouting.NormalizeKeepsMeaningExactly | apps/cli/src/command-model.ts:519-633 | An accepted invocation still routes through the same sub-commands after the rewriting and every command on the way gives its options the same values; a command keeps its operands exactly when the left-to-right scan of its tokens after the delimiter reaches no value option directly in front of a built-in flag |
| CommandRouting.NormalizeChangesExactly | apps/cli/src/command-model.ts:519-566 | The rewriting leaves a token list alone exactly when its left-to-right scan reaches no value option directly in front of a built-in flag, and otherwise makes it shorter |
| CommandRouting.DelimiterIsNotRespected | apps/cli/src/command-model.ts:528-543 | Two operands after a delimiter that become one |
| CommandRouting.EmptyNameTakesTheDelimiter | apps/cli/src/command-model.ts:139-148 | A value option with an empty name takes the delimiter for its token, so the delimiter is rewritten |
| CommandRouting.NormalizeLoop | apps/cli/src/command-model.ts:519-566 | The loop, which switches to the options of a sub-command it meets, rewrites as specified |

## Left out

* The real file system, `flock`, sockets, file modes and process spawning: lease tables,
  a metadata slot and a socket slot stand for them, and every step may fail.
* oRPC, Zod, citty and HTTP streaming: only result values and declared error kinds.
* SHA-256, random bytes and the text of dates are given values.
* Core services (sync, search, vault, authentication): operations that settle or fail.
* In `DaemonOwnership` the processes are steps on process records, because their
  interleaving is the point; the daemon and the direct opener are also objects in
  `DaemonRuntime` and `DirectDatabase`, extension mutations, cleaners and probes are not.
* A shutdown request served while the rollback of `startDaemon` awaits `listener.stop()`,
  which would run `finalize` beside the catch block.
* A `close()` that lands during the second await of a direct `open()`; read-only opens,
  `initializeDirectStorage`, and openers on platforms without leases.
* Reading and checking of discovery metadata beyond its owner: format, mode and inode
  checks are failures of a step.
* `stop` and `status` of the lifecycle, cancellation of one waiting caller, and the
  eventual success of a start against concurrent probes.
* Secret access of business requests is part of a request's waiting phase in
  `RequestTracker`; its order is modelled in `SecretAccess`. The settled requests that
  `RequestTracker` keeps are history; the application itself keeps only the tracked ones.
* The idle clock is read once per step, and timer delays are not modelled: the host may
  run any callback at any time.
* `Transfer` clocks and sizes are integers; a fractional clock reading would be refused as
  an invalid expiry.
* The 998-character line limit of section 2.1.1 of RFC 5322, which `renderEml` does not
  observe.
* The serialised length of thread results and the depth of thread nodes.
* The error texts and help flags of `validateCommandInvocation`: `CommandRouting` keeps
  its way through the sub-commands.
* Numbers of more than 308 digits, which become infinite: `SemverGate.Double` is finite.
* Presenters, router tables, the release matrix and documentation generation: field
  copying with nothing hard to prove.
- CommandRouting.NormalizeKeepsMeaningExactly: assumes that no option that takes a value is named by the empty string or by a string with an `=` in it, and that no sub-command is called "-"; without that it can fail (CommandRouting.EmptyNameTakesTheDelimiter).
- DaemonStart.StartIsBounded: assumes a monotone clock and sleeps that last at least their time.
- RequestTracker.IdleExpiryFollowsQuiet: states the interval open on the left; the closed one is RequestTracker.ClosedIntervalQuietExactly.
- SemverGate.CompareIsPrecedence: assumes that the first parts in which the versions differ do not round to one double; SemverGate.CompareIsPrecedenceExactly has no such assumption.
