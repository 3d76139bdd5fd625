# Proofs about the Talking Quill native helper

Talking Quill's native helper keeps crash-safe records on disk, hands native keyboard events to a detached owner
process, deletes directory trees it can identify, and talks over an ordered, framed protocol. This project models
those parts in Dafny and proves what they promise. `dafny verify dfyconfig.toml` checks everything.

## What is modelled

- **Cleanup record** (`CleanupRecord`, `RecordFolder`): the three-file rename protocol that replaces a record, its two
  recovery procedures and the contiguous-revision rule. `RecordFolder` runs them one operation at a time on a directory
  that remembers every state since its last flush; the process can stop before any operation and a power failure can
  leave any of those states. `Fate` is the single directory that recovery owes a state, and every step keeps it.
- **Protected root** (`ProtectedRoot`, `ProtectedRootSite`): creation of intent, root, binding and ownership stream, and
  the cleaners that run after an interruption.
- **Event bridge** (`BrokerEvents`, `PlatformAdapter`, `NativeAdapterExecutor`): numbering, queueing, hand-out and
  acknowledgement of native events, close watermarks, paste authority, and the executor that checks the sequence again.
  `Natives` reads the native events back out of a stream, so that delivery can be stated against what arrived.
- **Owner runtime** (`OwnerTrace`, `OwnerRuntime`, `ProductionSetup`, `ProcessSingleton`): the setup step by step, one
  step of the serialized loop against arbitrary server, connection and signal answers, and the life of the singleton.
  Setup and runtime keep one trace of what they were told and did; every flag is what the trace says, and `Orderly` says
  what may follow what.
- **Owned trees** (`OwnedTree`, `OwnedTreeDeletion`, `OwnedTreeRemoval`, `IdentityText`, `DirectoryNames`): inventory,
  exact verification and post-order deletion of a tree on a volume that may fail any call, identities as text, and the
  parser of the kernel's directory records.
- **Command line** (`CommandLine`): Windows quoting, against Microsoft's "Parsing C command-line arguments".
- **Protocol plumbing** (`OrderedTransport`, `OwnerClient`, `Framing`): the in-memory ordered transport, the client over
  any transport that meets the contract, and length-prefixed frames read from a stream in arbitrary pieces.
- **Fixed records** (`ReleasePolicy`, `MaintenanceRecord`, `FixedBuffer`): the 328-byte policy and the 168-byte
  maintenance record.

Methods that change state follow the source's loops and branches and are proved against functions on values; the
lemmas about those functions carry the main results. A field called `reliable` tells whether native calls may fail:
without it every call may, with it the methods must succeed when the specification says so.

## Where the code and its promise differ

- A failed production setup releases the singleton when the server fails after the native adapter had started, even if
  dropping the adapter left its thread running, because dropping ignores the result of the platform's shutdown. The
  comment at `helper/keyboard-owner/src/runtime.rs:797-801` asks for the singleton to be kept beside such a thread.
  `SetupReleasesBesideThreadExactlyWhen`: beside a thread left running it is released if and only if the adapter had
  started and the endpoint went quiet. `SetupCanReleaseBesideThread` is an input.
- A valid macOS maintenance record is read back if and only if its present target digests are not zero:
  `RoundTripsExactlyWhen`, with `ZeroTargetIsRefused` as an input.
- A temporary left by an earlier attempt is discarded after another candidate was published if and only if it does not
  parse; a complete one is refused: `LeftoverSettlesExactlyWhenTorn`. The script that calls the helper recovers before
  it publishes, so that case does not arise there; it also refuses to go on when it finds several temporaries for one
  record (`scripts/run-machine-lock-isolated-tests.mjs:1073-1083`), which the helper itself would settle one by one.
- Clearing an interrupted creation's artifacts leads to a clean site if and only if the root is gone; a root that is
  left is stranded: `ArtifactsFirstClearsExactlyWhen`.
- `preserve_process_lifetime` lasts if and only if no other coordinator holds the singleton: `PreserveLastsExactlyWhen`.
- The program path of a command line is recovered only without quotes and trailing backslashes:
  `SplitUndoesComposeExactlyWhen`.
- The client closes for good on codec, send, flush and receive errors, but an error of a graceful close leaves it
  closing: `PollClosing` and `Close`.

## Model

| member | source | states |
|---|---|---|
| `CleanupRecord.ValidationAcceptsExactlySuccessors` | helper/src/machine_lock_test_namespace.rs:485-521 | The transition check accepts a candidate if and only if it is the successor the format promises: same identity, revision 0 or the next one, and an unchanged control nonce once there is one; it then returns the parsed candidate. |
| `CleanupRecord.TransitionAcceptsExactly` | helper/src/machine_lock_test_namespace.rs:523-545 | A transition is accepted if and only if the candidate is a successor of the current record and the caller named the digest of exactly what it replaces; a wrong digest, or one for a record that is not there, has its own refusal. |
| `CleanupRecord.CandidateErrorsAre` | helper/src/machine_lock_test_namespace.rs:485-521 | What is refused in a candidate by itself, error by error. |
| `CleanupRecord.ReplacementErrorsAre` | helper/src/machine_lock_test_namespace.rs:485-521 | What is refused in a well-formed candidate against the record it would replace, error by error. |
| `CleanupRecord.ExhaustedRevisionHasNoSuccessor` | helper/src/machine_lock_test_namespace.rs:475-521 | After the largest 64-bit revision every candidate is refused; the revision never wraps. |
| `CleanupRecord.FateIsHeadOrItsSuccessor` | helper/src/machine_lock_test_namespace.rs:715-877 | Where recovery leads from any directory a crash can leave: the newest whole record, or a validated successor of it. |
| `CleanupRecord.BackupSucceedsExactlyWhen` | helper/src/machine_lock_test_namespace.rs:715-746 | The set-aside record is recovered if and only if it is there and a current record, if any, follows it. |
| `CleanupRecord.PendingSucceedsExactlyWhen` | helper/src/machine_lock_test_namespace.rs:790-877 | A temporary is recovered if and only if it is the one the caller was shown, and is torn, or may follow the record with room beside a set-aside one. |
| `CleanupRecord.BackupKeepsFate` | helper/src/machine_lock_test_namespace.rs:715-746 | Every directory that recovering the set-aside record passes through is sound and leads to the same end; when a set-aside record is there the recovery succeeds and leaves none. |
| `CleanupRecord.PendingKeepsFate` | helper/src/machine_lock_test_namespace.rs:790-877 | Every directory that recovering a temporary passes through, refused or not, in any order with the other recovery, leads to the same end. |
| `CleanupRecord.PendingSettles` | helper/src/machine_lock_test_namespace.rs:790-877 | With no record set aside, recovering the temporary succeeds at once and reaches the end that recovery owes. |
| `CleanupRecord.PendingBeforeBackup` | helper/src/machine_lock_test_namespace.rs:790-877 | Recovering a complete temporary before the set-aside record is accepted exactly when no record is current and the set-aside one carries no revision; otherwise it is refused. |
| `CleanupRecord.RecoveryReachesFate` | scripts/run-machine-lock-isolated-tests.mjs:1059-1109 | The two recoveries, first of the set-aside record and then of every temporary in any order, all succeed and reach that end. |
| `CleanupRecord.CrashedRecoveriesAgree` | helper/src/machine_lock_test_namespace.rs:715-877 | Any number of recovery calls, in any order, each crashed anywhere: a recovery finally left alone, in whatever order it takes the temporaries, ends in the one clean directory the first state led to. |
| `CleanupRecord.PublishStagesAreSound` | helper/src/machine_lock_test_namespace.rs:647-713 | At every point of a publication a whole old or new record is under the current or the previous name, and recovery leads to the old record or to a validated successor; once the temporary is complete it leads to the new one. |
| `CleanupRecord.PublicationSurvivesCrashes` | helper/src/machine_lock_test_namespace.rs:647-877 | A publication crashed anywhere, then recoveries crashed anywhere: the end has no temporary and no set-aside file, and holds the old record or a validated successor that parses as the published one. Torn temporaries of earlier attempts may lie about. Power failures are in `PublishThenRecover`. |
| `CleanupRecord.ChainHistory` | helper/src/machine_lock_test_namespace.rs:475-521 | Along any history of records on disk the identity is constant, revisions rise by exactly one from the first, never past 64 bits, and a control nonce once present never changes. |
| `CleanupRecord.LeftoverSettlesExactlyWhenTorn` | helper/src/machine_lock_test_namespace.rs:835-877 | What a temporary of an earlier attempt becomes once another candidate was published: it is discarded if and only if it does not parse; a complete one is refused. |
| `RecordFolder.RecordFolder.Perform` | helper/src/machine_lock_test_namespace.rs:661-711 | One name or data operation: it happens, or fails and changes nothing, and every version of the directory stays recoverable. |
| `RecordFolder.RecordFolder.Flush` | helper/src/machine_lock_test_namespace.rs:663-709 | A flush puts what processes see on disk and extends the history of records on disk by at most one. |
| `RecordFolder.RecordFolder.PowerLoss` | helper/src/machine_lock_test_namespace.rs:647-877 | Losing any suffix of the unflushed operations keeps the directory recoverable and the history a chain. |
| `RecordFolder.RecordFolder.CloseDeleted` | helper/src/machine_lock_test_namespace.rs:701-704 | A file marked for deletion loses its name when its handle closes, after the last flush; even that late loss keeps the directory recoverable. |
| `RecordFolder.RecordFolder.WritePending` | helper/src/machine_lock_test_namespace.rs:661-678 | Creating, writing in chunks of any size and flushing a temporary passes only through publication stages and ends with the complete temporary on disk. |
| `RecordFolder.RecordFolder.Replace` | helper/src/machine_lock_test_namespace.rs:686-704 | The two renames and the retirement pass only through the replacement stages; when they finish the temporary is the record on disk. They may stop before the deletion mark too. |
| `RecordFolder.RecordFolder.DeleteFile` | helper/src/machine_lock_test_namespace.rs:697-704 | A deletion marks its file and drops the name after the last flush, or fails before the mark and deletes nothing. |
| `RecordFolder.RecordFolder.Install` | helper/src/machine_lock_test_namespace.rs:705-711 | A first record is moved into place; every version is the old directory or the finished one. |
| `RecordFolder.RecordFolder.Publish` | helper/src/machine_lock_test_namespace.rs:647-713 | Publication changes anything only if the candidate follows the record that was current and the expected digest is that record's; a stale digest is refused and nothing changes. Otherwise it ends with exactly the candidate as the record, and at every point between leaves a publication stage; it fails on an existing previous file only after the temporary is written. Torn temporaries stay where they are. |
| `RecordFolder.RecordFolder.RecoverBackup` | helper/src/machine_lock_test_namespace.rs:715-746 | The step-by-step recovery of the set-aside record computes the specified result, passes only through its stages, and keeps the fate. |
| `RecordFolder.RecordFolder.RecoverPending` | helper/src/machine_lock_test_namespace.rs:790-877 | The step-by-step recovery of a temporary computes the specified result, only for a temporary whose digest is the one shown, passes only through its stages, keeps the fate, and tells whether it published or discarded. |
| `RecordFolder.RecordFolder.PublishThenRecover` | helper/src/machine_lock_test_namespace.rs:647-877 | A publication, then any sequence of recovery calls and power failures: a recovery finally left alone reaches the end one of the earlier versions owed, or a validated successor of the record before; from a flushed folder with no complete temporary, the old record or that successor. |
| `RecordFolder.RecordFolder.Run` | helper/src/machine_lock_test_namespace.rs:647-877 | Any run of publications, recoveries, crashes and power failures, each step taken in order: the records that reached the disk have one identity, revisions that follow the first without a gap and one control nonce once there is one; and recovery then leads to a clean directory with the newest whole record or a validated successor. |
| `ProtectedRoot.Claim.CreationIsRecoverable` | helper/src/machine_lock_test_namespace.rs:1947-2018 | At every point of a creation: a root implies a complete intent, a binding implies an intent, a stream implies a complete binding. |
| `ProtectedRoot.Claim.CleaningIsRecoverable` | helper/src/machine_lock_test_namespace.rs:2020-2062 | Every point of a cleaner keeps those implications. |
| `ProtectedRoot.Claim.CleanerLeavesNothing` | helper/src/machine_lock_test_namespace.rs:2020-2177 | From any recoverable state the matching cleaner succeeds and leaves no root, binding or intent. |
| `ProtectedRoot.Claim.InterruptedCreationIsCleared` | helper/src/machine_lock_test_namespace.rs:1947-2177 | A creation stopped anywhere, then cleaner calls stopped anywhere, any number of times: the matching cleaner succeeds and leaves nothing. |
| `ProtectedRoot.Claim.CleanerSucceedsExactlyWhen` | helper/src/machine_lock_test_namespace.rs:2020-2177 | The exact condition under which the matching cleaner clears a state, recoverable or not; an ownership stream that is not text counts as absent, as in the source. |
| `ProtectedRoot.Claim.ArtifactsFirstClearsExactlyWhen` | helper/src/machine_lock_test_namespace.rs:2158-2177 | Clearing the artifacts of a recoverable site always succeeds, and a cleaner then reaches a clean site if and only if no root is left. |
| `ProtectedRoot.Claim.DeletedRootVerifiesAtEveryStage` | helper/src/machine_lock_test_namespace.rs:2099-2156 | A removal that verifies as a deleted root stays verifiable and removable after each of its two deletions. |
| `ProtectedRoot.Claim.ValidClaimsAre` | helper/src/machine_lock_test_namespace.rs:3663-3675 | A claim is valid if and only if its prefix is 1 to 512 visible ASCII characters and its nonce 32 hexadecimal digits. |
| `ProtectedRoot.Claim.MatchesExactly` | helper/src/machine_lock_test_namespace.rs:2020-2062 | A binding counts as this claim's for this root exactly if it is version 1 with its nonce, prefix and root identity, whatever its stream digest. |
| `ProtectedRoot.Claim.BindingIsDeletedExactlyWhen` | helper/src/machine_lock_test_namespace.rs:2099-2156 | A deleted root's artifacts are removed, and verified, exactly if each that is there is the expected one. |
| `ProtectedRoot.Claim.InterruptedErrorsAre` | helper/src/machine_lock_test_namespace.rs:2020-2062 | Why a root is not cleared, error by error. |
| `ProtectedRoot.Claim.DeletedErrorsAre` | helper/src/machine_lock_test_namespace.rs:2099-2156 | Why a deleted root's artifacts stay, error by error. |
| `ProtectedRootSite.ProtectedRootSite.Create` | helper/src/machine_lock_test_namespace.rs:1947-2018 | The step-by-step creation passes only through creation stages, refuses bad arguments and an existing intent, in that order, unchanged, and ends with exactly the promised intent, root, stream and binding on disk. |
| `ProtectedRootSite.ProtectedRootSite.WriteIntent` | helper/src/machine_lock_test_namespace.rs:3207-3234 | Writing the intent in two halves with a flush passes only through those halves, which are creation stages. |
| `ProtectedRootSite.ProtectedRootSite.WriteBinding` | helper/src/machine_lock_test_namespace.rs:3207-3234 | Writing the binding in two halves with a flush passes only through those halves, which are creation stages. |
| `ProtectedRootSite.ProtectedRootSite.WriteStream` | helper/src/machine_lock_test_namespace.rs:3194-3205 | Writing the ownership stream in two halves with a flush passes only through those halves, which are creation stages. |
| `ProtectedRootSite.ProtectedRootSite.RemoveInterrupted` | helper/src/machine_lock_test_namespace.rs:2020-2062 | The step-by-step cleaner of a root computes the specified result on any site; on a recoverable one it passes only through cleaning stages and stays recoverable wherever it stops. |
| `ProtectedRootSite.ProtectedRootSite.DeleteArtifacts` | helper/src/machine_lock_test_namespace.rs:2158-2177 | The step-by-step clearing of the artifacts computes the specified result on any site; it never refuses a recoverable one, and keeps it recoverable if the root is gone. |
| `ProtectedRootSite.ProtectedRootSite.DeleteBinding` | helper/src/machine_lock_test_namespace.rs:2132-2156 | The removal of a root's binding and intent computes the specified result on any site; a refusal leaves at most the binding gone. |
| `ProtectedRootSite.ProtectedRootSite.PowerLoss` | helper/src/machine_lock_test_namespace.rs:1947-2177 | Losing any suffix of the unflushed operations keeps the site recoverable. |
| `BrokerEvents.NumberOnAppendsArrivals` | helper/keyboard-owner/src/platform_adapter.rs:260-301 | Numbering arrivals one by one appends them in arrival order with ids that go on without a gap. |
| `BrokerEvents.TranslationIsUndone` | helper/keyboard-owner/src/platform_adapter.rs:281-301 | Every native event translates to an event that tells which native event it was. |
| `BrokerEvents.CarriesKeepsFlow` | helper/keyboard-owner/src/platform_adapter.rs:260-330 | A stream that went on with arrivals from the channel, and with events of the owner's own, carries and leaves waiting exactly the arrivals it did before, in order. |
| `BrokerEvents.NeutralIs` | helper/keyboard-owner/src/platform_adapter.rs:353-382 | The one event that may still be unacknowledged when the adapter stops: no claim, no work, nothing held. |
| `BrokerEvents.AtMostOneFault` | helper/keyboard-owner/src/platform_adapter.rs:324-330 | In a numbered stream with one permitted fault id there is at most one native fault. |
| `BrokerEvents.WatermarkSeparates` | helper/keyboard-owner/src/platform_adapter.rs:145-147 | The number of events at one moment separates the ids given so far from all later ids. |
| `BrokerEvents.ReportsAlternate` | helper/keyboard-owner/src/platform_adapter.rs:303-323 | Until an event is dropped, ownership reports alternate pending, neutral, pending, neutral. |
| `PlatformAdapter.PlatformAdapter.Arrive` | helper/keyboard-owner/src/platform_adapter.rs:64-93 | An arrival joins the bounded channel in order, or raises the terminal signal when it is full. |
| `PlatformAdapter.PlatformAdapter.PushEvent` | helper/keyboard-owner/src/platform_adapter.rs:260-279 | A pushed event gets the next id at the end of the queue; without room nothing is queued and the terminal signal is up. |
| `PlatformAdapter.PlatformAdapter.IngestAllNativeEvents` | helper/keyboard-owner/src/platform_adapter.rs:332-336 | Draining the channel numbers exactly the arrivals that fit, in order, and records whether any was dropped. |
| `PlatformAdapter.PlatformAdapter.RefreshNativeControlEvents` | helper/keyboard-owner/src/platform_adapter.rs:303-330 | Unless an event was dropped, the stream goes on with exactly a report of work if work changed, with the new value, and then the fault if a terminal signal is pending and was not told; nothing else. |
| `PlatformAdapter.FailuresAre` | helper/keyboard-owner/src/platform_adapter.rs:124-133 | Which platform errors leave an effect certainly not applied. |
| `PlatformAdapter.RefusalsAre` | helper/keyboard-owner/src/platform_adapter.rs:606-616 | Which refusal each reason of the platform has. |
| `PlatformAdapter.PlatformAdapter.NextEnvelope` | helper/keyboard-owner/src/platform_adapter.rs:338-351 | A poll hands out the oldest queued event; with none queued it takes exactly one arrival from the channel, hands that out first, and queues what has to be reported behind it; it answers nothing only while an event is out, once stopped, or when nothing waits and nothing has to be reported. |
| `PlatformAdapter.PlatformAdapter.AcknowledgeEvent` | helper/keyboard-owner/src/platform_adapter.rs:455-469 | The right acknowledgement ends the flight; a committed paste end belongs to the current claim and releases it; any other acknowledgement changes nothing but raises the terminal signal. |
| `PlatformAdapter.PlatformAdapter.Drain` | helper/keyboard-owner/src/platform_adapter.rs:442-446 | Everything in the channel is numbered in arrival order behind what was numbered before, followed by what has to be reported, unless something was dropped. |
| `PlatformAdapter.PlatformAdapter.CloseFreshAdmission` | helper/keyboard-owner/src/platform_adapter.rs:135-148 | The watermark is the last id given, and every event pending in channel or queue has been numbered at or below it in arrival order, unless one was dropped and the terminal signal is up. |
| `PlatformAdapter.PlatformAdapter.EmergencyClose` | helper/keyboard-owner/src/platform_adapter.rs:150-167 | Recording is off whatever the platform answers; a watermark is given only if the platform confirmed both; it is the last id given, and the activation failure wins over the session failure. |
| `PlatformAdapter.PlatformAdapter.AdmitPaste` | helper/keyboard-owner/src/platform_adapter.rs:206-245 | A paste waits if and only if none is claimed, its generation is legal and the platform took it or cannot tell; a claim queues its announcement and its end next to each other with the matching outcome; every other paste is refused for the first reason that applies and changes nothing. |
| `PlatformAdapter.PlatformAdapter.StopAdapter` | helper/keyboard-owner/src/platform_adapter.rs:353-382 | The adapter stops exactly when no work, no claim, no queued event and no unacknowledged event other than a neutral ownership fact is left, and answers applied exactly if the platform's shutdown was quiet and not terminal. |
| `PlatformAdapter.PlatformAdapter.Configure` | helper/keyboard-owner/src/platform_adapter.rs:135-204 | Each such effect sets exactly the flag and mode it names if the platform confirms it, answers with that platform error otherwise, and never puts the flags at odds with the platform's last word. |
| `PlatformAdapter.PlatformAdapter.CancelCandidate` | helper/keyboard-owner/src/platform_adapter.rs:413-449 | A cancelled candidate is answered with the owner of a paste and the work left, after everything pending was numbered; a platform error changes nothing. |
| `PlatformAdapter.PlatformAdapter.Act` | helper/keyboard-owner/src/platform_adapter.rs:413-449 | What each remaining effect numbers, claims and answers, by what the platform said: a drain numbers everything pending, a persisted record and a waiting rollback number nothing. |
| `PlatformAdapter.PlatformAdapter.ClaimPaste` | helper/keyboard-owner/src/platform_adapter.rs:206-245 | A claim's announcement and its end get two consecutive ids, unless an event was dropped. |
| `PlatformAdapter.PlatformAdapter.Execute` | helper/keyboard-owner/src/platform_adapter.rs:413-449 | Over every effect: a stopped adapter refuses and changes nothing; a configuring effect touches only its flags; every other one does and answers what it specifies, and only a waiting paste changes a claim. |
| `PlatformAdapter.PlatformAdapter.BoundedOrphanShutdown` | helper/keyboard-owner/src/platform_adapter.rs:518-529 | The orphan shutdown stops for good and keeps what was numbered; it is reported quiet exactly if the platform went quiet with nothing incomplete, failed exactly if it did not go quiet. |
| `NativeAdapterExecutor.NativeAdapterExecutor.CheckSequence` | helper/keyboard-owner/src/adapter.rs:407-427 | Against any adapter: an id is valid exactly if it is the successor of the last one and no fault came before; a fault is final. |
| `NativeAdapterExecutor.MapsExactly` | helper/keyboard-owner/src/adapter.rs:451-523 | A command reaches the adapter if and only if it is no violation, no exit and no capture behind a closed build gate; violations and gated captures have their own answers. |
| `NativeAdapterExecutor.ResultsAre` | helper/keyboard-owner/src/adapter.rs:525-557 | A completion is passed on if and only if its effect can have it. |
| `NativeAdapterExecutor.GatingIs` | helper/keyboard-owner/src/adapter.rs:445-450 | The gate changes only whether a build is eligible in readiness events. |
| `NativeAdapterExecutor.NativeAdapterExecutor.TryNextEvent` | helper/keyboard-owner/src/adapter.rs:407-427 | The sequence check never fails; a served poll gives the owner the oldest queued event, or the first arrival, with the next id and the gate applied; nothing that arrived is lost or invented on the way. |
| `NativeAdapterExecutor.NativeAdapterExecutor.AcknowledgeEvent` | helper/keyboard-owner/src/adapter.rs:429-435 | The right id ends the flight, so that the next poll is served; any other raises the terminal signal. |
| `NativeAdapterExecutor.NativeAdapterExecutor.Execute` | helper/keyboard-owner/src/adapter.rs:451-580 | A command ends in a contract violation exactly if it is one; a capture behind a closed gate is refused; neither reaches the adapter, and every other effect's own answer is passed on. |
| `NativeAdapterExecutor.NativeAdapterExecutor.StopLeavesNothing` | helper/keyboard-owner/src/adapter.rs:451-580 | A stop reported as applied leaves no claim and no event the owner has not received. |
| `NativeAdapterExecutor.NativeAdapterExecutor.DeliverAll` | helper/keyboard-owner/src/adapter.rs:407-435 | Enough polls, each event acknowledged, deliver everything: whatever the platform says in between, the owner has then received every native event that arrived, each once and in order, unless one was dropped, and none is dropped while ids last. |
| `NativeAdapterExecutor.NativeAdapterExecutor.Run` | helper/keyboard-owner/src/adapter.rs:407-427 | Any interleaving of arrivals, terminal signals, commands, polls, right or wrong acknowledgements and orphan shutdowns: the owner receives the events 1, 2, 3, ... of the one queue, each once; the sequence fault never fires; unless an event was dropped the native ones received are the first that arrived, in order; and behind a closed gate nothing is ever captured. |
| `OwnerTrace.OrderlyDisposition` | helper/keyboard-owner/src/runtime.rs:697-719 | In an orderly trace the singleton is disposed of at most once, never released after a poison failure, after a lost authority only when the server had just confirmed the exit, and only after the endpoint went quiet; an endpoint is bound before the adapter starts. |
| `OwnerTrace.OneDisposition` | helper/keyboard-owner/src/runtime.rs:697-719 | Two dispositions in an orderly trace are the same one. |
| `OwnerTrace.OrderlyPeers` | helper/keyboard-owner/src/runtime.rs:512-545 | In an orderly trace no peer is attached once there was a reason to shut down, and no connection id is used twice. |
| `OwnerTrace.SeenIsWhatHappened` | helper/keyboard-owner/src/runtime.rs:491-581 | What is kept of a trace is what happened in it: a flag is up exactly if an event that raises it is there. |
| `OwnerTrace.DisposedEndsWell` | helper/keyboard-owner/src/runtime.rs:697-735 | An orderly trace with a disposition has exactly one, and a release in it had nothing against it: no poison failure, a quiet endpoint, and no lost authority unless the exit was confirmed. |
| `OwnerTrace.KeptAnswersAre` | helper/keyboard-owner/src/runtime.rs:560-580 | The answers after which a connection is kept, and those that stop a round. |
| `OwnerRuntime.OwnerRuntime.RequestShutdown` | helper/keyboard-owner/src/runtime.rs:467-483 | Shutdown is latched whatever the server answers; the connections are gone if it detached them or reports a phase it has latched, otherwise the runtime goes into recovery. |
| `OwnerRuntime.OwnerRuntime.EnterFatalRecovery` | helper/keyboard-owner/src/runtime.rs:683-695 | Fatal recovery implies shutdown, is entered once, and keeps or clears the connections. |
| `OwnerRuntime.OwnerRuntime.AllocateConnectionId` | helper/keyboard-owner/src/runtime.rs:673-681 | Ids count up; exhaustion is an error, never a reuse. |
| `OwnerRuntime.OwnerRuntime.ReleaseSingleton` | helper/keyboard-owner/src/runtime.rs:697-719 | Exactly one disposition: preserved after a poison failure, and after a lost authority unless the server confirms the exit at that moment; otherwise released after a quiet endpoint or preserved after a failed one. |
| `OwnerRuntime.OwnerRuntime.TakeSignal` | helper/keyboard-owner/src/runtime.rs:491-508 | Each signal latches what it must and nothing is unlatched. |
| `OwnerRuntime.OwnerRuntime.AcceptPeer` | helper/keyboard-owner/src/runtime.rs:510-545 | The server is asked for room, and the source for a peer, only before shutdown; a peer that was polled is attached under the next id, and the connection list stays strictly increasing. |
| `OwnerRuntime.OwnerRuntime.AttachPeer` | helper/keyboard-owner/src/runtime.rs:515-545 | Attaching fails exactly when the ids are exhausted, and then attaches nobody; otherwise the server was given the peer under the next id, and the connection is kept exactly if it accepted. |
| `OwnerRuntime.OwnerRuntime.PumpConnections` | helper/keyboard-owner/src/runtime.rs:558-581 | Pumping leaves exactly the connections of the round that are not closed, and an unexpected error leads to fatal recovery. |
| `OwnerRuntime.OwnerRuntime.PumpRound` | helper/keyboard-owner/src/runtime.rs:560-580 | For any answers of the server: the connections kept are exactly those it was asked about and did not call closed, in order; the round stops at the first unexpected error; progress and backpressure are reported exactly when an answer says so. |
| `OwnerRuntime.Live` | helper/keyboard-owner/src/runtime.rs:660-735 | A whole life, any number of steps and then the drop: an orderly trace that ends with its one disposition of the singleton; nowhere in it is a release after a poison failure, before the endpoint went quiet, or after a lost authority without the confirmed exit; and every flag is up exactly if something happened that raises it. |
| `OwnerRuntime.OwnerRuntime.Step` | helper/keyboard-owner/src/runtime.rs:485-658 | One step against arbitrary server, source and signals: flags never reset, the trace stays orderly; a step that goes on asked for room, pumped every connection and the adapter, and last heard that no exit is asked for; what it reports is what moved or was held up; an exit and every error have their reason in the trace, and only they dispose of the singleton. |
| `OwnerRuntime.OwnerRuntime.CheckSource` | helper/keyboard-owner/src/runtime.rs:587-595 | With no connection left the authority is lost exactly if the source is exhausted, or had a connection and retires after it. |
| `OwnerRuntime.OwnerRuntime.CompletePlannedRoute` | helper/keyboard-owner/src/runtime.rs:582-586 | A complete route detaches everything and shuts down; a server that cannot ends the step with its error, and nothing else is done. |
| `OwnerRuntime.OwnerRuntime.CheckGrace` | helper/keyboard-owner/src/runtime.rs:546-556 | Only a runtime that waits for its first peer asks for the grace period, and shuts down exactly if it is over. |
| `OwnerRuntime.OwnerRuntime.LeaveOrphaned` | helper/keyboard-owner/src/runtime.rs:625-642 | Only without authority, and while no exit is asked for, the policy is asked; the runtime leaves exactly if the bounded shutdown ended quiet or incomplete, through a disposition of the singleton, and recovers if it failed. |
| `OwnerRuntime.OwnerRuntime.Drop` | helper/keyboard-owner/src/runtime.rs:722-735 | When the runtime is gone its singleton has had exactly one disposition, and each flag has its reason. |
| `ProductionSetup.ProductionSetup.Attempt` | helper/keyboard-owner/src/runtime.rs:753-790 | Drawing the id, binding, starting the adapter, starting the server and latching a rollback happen in that order; the setup is ready exactly if each answered well, the first that did not is the reported cause, and a native thread is left exactly if the failed or dropped adapter left it. |
| `ProductionSetup.ProductionSetup.Abandon` | helper/keyboard-owner/src/runtime.rs:791-811 | A failed setup shuts the endpoint, drops the source and only then releases or preserves the singleton; an endpoint that cannot be shut hides the cause. |
| `ProductionSetup.Production` | helper/keyboard-owner/src/runtime.rs:749-813 | A runtime starts, the singleton held and its trace that of its setup, exactly if the singleton was acquired and everyone answered well; otherwise the singleton is disposed of and the source's error reported. |
| `ProductionSetup.SetupIsOrderly` | helper/keyboard-owner/src/runtime.rs:753-811 | At every point of every setup, whatever each step answers, the trace is orderly and fits the stage. |
| `ProductionSetup.SetupReleasesExactlyWhen` | helper/keyboard-owner/src/runtime.rs:791-811 | Over every failed setup: the singleton is released if and only if the endpoint went quiet and the failure was not the native startup, and otherwise preserved. |
| `ProductionSetup.SetupReleasesBesideThreadExactlyWhen` | helper/keyboard-owner/src/runtime.rs:753-811 | A failed setup that left a native thread releases the singleton beside it if and only if the adapter had started and the endpoint went quiet. |
| `ProductionSetup.SetupCanReleaseBesideThread` | helper/keyboard-owner/src/runtime.rs:753-811 | A concrete setup, step by step, that does so. |
| `ProductionSetup.ProduceAndLive` | helper/keyboard-owner/src/runtime.rs:660-813 | From the acquisition to the end of the process the singleton is disposed of exactly once, in one orderly trace; a failed native startup preserves it, a failed draw or server releases it. |
| `ProcessSingleton.AtMostOneHolder` | helper/keyboard-owner/src/runtime.rs:316-347 | In every order of acquire, release and preserve calls at most one coordinator holds the singleton. |
| `ProcessSingleton.AcquiresExactlyWhen` | helper/keyboard-owner/src/runtime.rs:326-334 | An acquisition succeeds exactly if the caller holds the singleton already or the flag is down, and then the caller holds it. |
| `ProcessSingleton.ReleaseLetsTheNextIn` | helper/keyboard-owner/src/runtime.rs:336-341 | A holder's release lets whoever asks next acquire; anyone else's changes nothing. |
| `ProcessSingleton.RetiredStaysRetired` | helper/keyboard-owner/src/runtime.rs:326-346 | Once the flag is up and nobody holds it, no order of calls frees it and no acquisition succeeds. |
| `ProcessSingleton.PreservedForever` | helper/keyboard-owner/src/runtime.rs:343-346 | After a call that preserved what no other coordinator held, no acquisition by anyone ever succeeds again. |
| `ProcessSingleton.PreserveLastsExactlyWhen` | helper/keyboard-owner/src/runtime.rs:336-346 | A preserve lasts under every later order of calls if and only if no other coordinator holds the singleton. |
| `ProcessSingleton.Coordinators.TryAcquire` | helper/keyboard-owner/src/runtime.rs:326-334 | The method on the shared flag is the specified step, and answers whether the caller now holds it. |
| `ProcessSingleton.Coordinators.Release` | helper/keyboard-owner/src/runtime.rs:336-341 | Releasing is the specified step. |
| `ProcessSingleton.Coordinators.PreserveProcessLifetime` | helper/keyboard-owner/src/runtime.rs:343-346 | Preserving is the specified step; it retires the flag exactly if no other coordinator holds it. |
| `OwnedTree.VerifierAcceptsExactly` | helper/src/owned_tree.rs:433-492 | The verifier accepts a walk exactly if every entry is plain, on the root's volume, unlinked, no reparse point, expected with its identity, and no path comes twice; it then has seen exactly the walk's paths. |
| `OwnedTree.WalkPathsAreDistinct` | helper/src/owned_tree.rs:219-259 | A tree with distinct, non-empty, slash-free sibling names has no relative path twice. |
| `OwnedTree.AcceptsExactlyItsInventory` | helper/src/owned_tree.rs:312-348 | Exactness: a well-named tree is accepted if and only if it is inspectable, the root is the expected one, and the expected map equals its inventory; with missing entries allowed, contains it. |
| `OwnedTree.OwnInventoryIsAccepted` | helper/src/owned_tree.rs:202-259 | A tree an inventory can be taken of is accepted as its own inventory. |
| `OwnedTree.InventoryRefusesLinkedDirectories` | helper/src/owned_tree.rs:692-703 | An inventory refuses every entry of several links, directories too: opening it already fails, before the walk's own check, which excepts directories. |
| `OwnedTree.InventoryTakesExactlyOrdinary` | helper/src/owned_tree.rs:219-259 | An inventory is taken exactly of a tree whose entries are all plainly named, on the root's volume, of one link and no reparse points. |
| `OwnedTreeDeletion.DeletesExactlyTheWalk` | helper/src/owned_tree.rs:494-499 | The deletion order has exactly the verified paths. |
| `OwnedTreeDeletion.PlanIsChildrenFirst` | helper/src/owned_tree.rs:494-499 | No path is deleted twice and none after a directory it lies in; the root comes last. |
| `OwnedTreeDeletion.PlanOfWhatIsLeft` | helper/src/owned_tree.rs:494-499 | After any number of deletions, the deletion of what is left is exactly the rest of the order, so interrupted runs together delete everything once. |
| `OwnedTreeDeletion.InterruptedRemovalIsAcceptedAgain` | helper/src/owned_tree.rs:312-348 | A removal that was accepted and then interrupted is accepted again, with missing entries allowed, against the same list. |
| `IdentityText.IdentityRoundTrips` | helper/src/owned_tree.rs:80-93 | Every identity written by an inventory is parsed back to the same two numbers. |
| `IdentityText.IdentityTextIs` | helper/src/owned_tree.rs:80-93 | A text is an identity exactly if it is two unsigned 64-bit numerals joined by a colon. |
| `IdentityText.SignedNumeralParses` | helper/src/owned_tree.rs:80-93 | A leading plus sign and zeros in front change nothing of a number that is read. |
| `OwnedTreeRemoval.InventoryIsAccepted` | helper/src/owned_tree.rs:202-348 | The entries an inventory records, with their identities as text, are accepted by an exact removal of that tree. |
| `OwnedTreeRemoval.AsManyIffDistinct` | helper/src/owned_tree.rs:319-332 | The collected map is as large as the list exactly if no path comes twice. |
| `OwnedTreeRemoval.CollectExpected` | helper/src/owned_tree.rs:319-332 | The loop builds exactly the map the list means: refused for the first unreadable identity, or for a repeated path. |
| `OwnedTreeRemoval.InventoryListsTheWalk` | helper/src/owned_tree.rs:219-259 | An inventory fails with the fault of the first entry that has one, otherwise lists the whole walk, and succeeds exactly on a tree of ordinary entries. |
| `OwnedTreeRemoval.Volume.InventoryDirectory` | helper/src/owned_tree.rs:219-259 | The recursive inventory with its accumulator is the specified one, unless a native call failed. |
| `OwnedTreeRemoval.Volume.InventoryEntry` | helper/src/owned_tree.rs:692-703 | Opening one entry and then checking it fails with the specified fault, or lists it. |
| `OwnedTreeRemoval.Volume.VerifyDirectory` | helper/src/owned_tree.rs:433-492 | The recursive verifier with its set of seen paths is the specified one, with the first fault as its error, and its handles are in deletion order. |
| `OwnedTreeRemoval.Volume.VerifyTree` | helper/src/owned_tree.rs:312-342 | The checks before a deletion give exactly the specified refusal. |
| `OwnedTreeRemoval.Volume.MarkDeleted` | helper/src/owned_tree.rs:861-875 | A deletion through a handle may fail, and fails while the directory holds anything; a failure deletes nothing. |
| `OwnedTreeRemoval.Volume.DeleteVerified` | helper/src/owned_tree.rs:494-499 | The recursion deletes in order, stops at the first failure, and on a reliable volume never meets a directory that is not empty. |
| `OwnedTreeRemoval.Volume.RemoveExact` | helper/src/owned_tree.rs:312-348 | Nothing is deleted on a rejection; on success exactly the root and the verified nodes are, in order, with a flush after them; an interruption leaves a prefix of that; an I/O error is reported exactly if a native call failed. |
| `DirectoryNames.ReadsOnlyTheUsedPart` | helper/src/owned_tree.rs:555-582 | The walk never depends on bytes past the used part of the buffer. |
| `DirectoryNames.ChainReadsBack` | helper/src/owned_tree.rs:555-582 | Any well-formed chain of padded records is read back as exactly its names in order, those that are literally "." and ".." left out, whatever follows it. |
| `DirectoryNames.KeepsAllButTheDots` | helper/src/owned_tree.rs:566-573 | What is kept of a list of records is exactly the names that are neither "." nor "..", every one and in order. |
| `DirectoryNames.AcceptsExactlyTrails` | helper/src/owned_tree.rs:555-582 | A buffer is accepted if and only if its links lead, each far enough on and within the used part, to a last record; the names are those on that trail. |
| `DirectoryNames.RecordIsReadExactlyWhen` | helper/src/owned_tree.rs:555-569 | A record is read exactly where its header and its name lie within the used part, and then as the numbers and characters that stand there. |
| `DirectoryNames.ListingReadsBack` | helper/src/owned_tree.rs:526-584 | A listing handed out as any number of well-formed chains is read back in full, in order, without "." and "..", whatever the rest of each buffer holds. |
| `DirectoryNames.ListingHasNoDots` | helper/src/owned_tree.rs:570-573 | No listing, well-formed or not, holds "." or "..". |
| `DirectoryNames.CopyName` | helper/src/owned_tree.rs:566-569 | The two-byte loop reads the name at its place. |
| `DirectoryNames.ReadRecords` | helper/src/owned_tree.rs:555-582 | The offset loop ends for every buffer and appends exactly the specified names, or fails on a record that runs past the used part or a link that does not advance within it. |
| `DirectoryNames.Directory.DirectoryNames` | helper/src/owned_tree.rs:526-584 | The query loop lists the whole directory from its start, whatever was queried before, without "." and "..", and stops at the first failure. |
| `CommandLine.Quote` | helper/src/windows_acceptance_launcher.rs:1262-1286 | The loop with its backslash counter produces the specified quoted form, and refuses exactly a value with a NUL. |
| `CommandLine.Compose` | helper/src/windows_acceptance_launcher.rs:1254-1261 | The command line is the quoted path followed by each quoted argument after a blank; refused exactly if some part holds a NUL. |
| `CommandLine.ArgumentsUndoQuoting` | helper/src/windows_acceptance_launcher.rs:1254-1286 | Splitting by the C runtime's rules gives back exactly the arguments, for every run of backslashes, every quote and every empty argument. |
| `CommandLine.ProgramOfQuoted` | helper/src/windows_acceptance_launcher.rs:1255-1255 | By the runtime's rule for the program name a quote-free path comes back with its trailing backslashes doubled. |
| `CommandLine.SplitReturnsArguments` | helper/src/windows_acceptance_launcher.rs:1254-1261 | For every quote-free path the arguments come back exactly. |
| `CommandLine.SplitUndoesComposeExactlyWhen` | helper/src/windows_acceptance_launcher.rs:1254-1261 | The whole command line is recovered if and only if the path has no quote and no trailing backslash. |
| `OrderedTransport.Endpoint.TrySend` | helper/owner-protocol/src/fake_transport.rs:252-255 | A whole legal frame is accepted behind all earlier ones if and only if both ends are open and there is room in the queue and in the sequence; otherwise nothing changes and the error is the first that applies. |
| `OrderedTransport.Endpoint.TrySendBounded` | helper/owner-protocol/src/fake_transport.rs:218-244 | The same for any frame of bounded length. |
| `OrderedTransport.Endpoint.Flush` | helper/owner-protocol/src/fake_transport.rs:257-285 | A receipt is flushed if and only if it is this endpoint's, both ends are open, and its frame was sent and not flushed yet; then that frame and all earlier ones have crossed. Every other case has its error and changes nothing. |
| `OrderedTransport.Endpoint.SendAndFlush` | helper/owner-protocol/src/fake_transport.rs:218-285 | A frame that was accepted can be flushed at once, and then everything accepted has crossed. |
| `OrderedTransport.Endpoint.TryReceive` | helper/owner-protocol/src/fake_transport.rs:287-303 | The frame received is the next accepted one; the peer's end is told once, and only after everything that crossed was received. |
| `OrderedTransport.Endpoint.ReceiveAll` | helper/owner-protocol/src/fake_transport.rs:287-303 | Receiving until nothing is left gives exactly everything that crossed, in the order of acceptance. |
| `OrderedTransport.Endpoint.Close` | helper/owner-protocol/src/fake_transport.rs:305-319 | A graceful close loses nothing that was accepted; it is refused exactly while the peer is gone and something is pending. |
| `OrderedTransport.Endpoint.Abort` | helper/owner-protocol/src/fake_transport.rs:79-84 | An abort loses only the frames that had not been flushed. |
| `OrderedTransport.Endpoint.Drop` | helper/owner-protocol/src/fake_transport.rs:152-158 | A dropped endpoint is closed and nothing that crossed is lost. |
| `OrderedTransport.Direction.CrossThrough` | helper/owner-protocol/src/fake_transport.rs:275-283 | The loop moves exactly the frames up to the receipt across, in order. |
| `OrderedTransport.Direction.Drain` | helper/owner-protocol/src/fake_transport.rs:313-317 | The loop moves everything pending across before the direction closes. |
| `OrderedTransport.Pair.Run` | helper/owner-protocol/src/fake_transport.rs:217-324 | Every interleaving of both endpoints and their controls: what is received is an in-order, duplicate-free prefix of what was accepted, no queue outgrows its capacity, a peer's end is told at most once, and a closed direction carries nothing more. |
| `OrderedTransport.Connect` | helper/owner-protocol/src/fake_transport.rs:115-150 | A link is made exactly for a capacity up to 64 and two unused transport ids. |
| `OwnerClient.OwnerProtocolClient.New` | helper/owner-protocol/src/client.rs:42-57 | A client is made exactly if transport and codec are on the same side of the test boundary. |
| `OwnerClient.OwnerProtocolClient.SendRequest` | helper/owner-protocol/src/client.rs:61-88 | A request's frame is sent and flushed once, only after every earlier frame was flushed; a refusal asks nobody and changes nothing; a codec, send or flush error is followed by an abort and closes the client for good. |
| `OwnerClient.OwnerProtocolClient.Poll` | helper/owner-protocol/src/client.rs:90-129 | By the transport's answers: a poll serves the pending flush first, then the close or the next frame, and returns exactly the message found in that frame; every failure aborts and closes the client for good, except a failed graceful close, which leaves it closing; a closed client asks nobody. |
| `OwnerClient.OwnerProtocolClient.PollClosing` | helper/owner-protocol/src/client.rs:103-111 | A graceful close completes only when everything accepted has crossed; its errors leave the client closing, not closed. |
| `OwnerClient.OwnerProtocolClient.Close` | helper/owner-protocol/src/client.rs:133-143 | Closing begins once, completes only when everything accepted has crossed, and its errors leave the client open to further polls. |
| `OwnerClient.OwnerProtocolClient.Abort` | helper/owner-protocol/src/client.rs:145-163 | An abort closes for good. |
| `OwnerClient.Run` | helper/owner-protocol/src/client.rs:61-163 | Any run of calls: what the transport accepted is the requests' frames in order, each at most once, and at most the last one, on which the client closed, is missing; every frame handed over was decoded once, and every message found was returned by one poll, in order. |
| `Framing.EncodeOuterFrame` | helper/owner-protocol/src/framing.rs:20-27 | A body of 1 to 16384 bytes is framed; every other length is refused. |
| `Framing.DecodesExactlyFrames` | helper/owner-protocol/src/framing.rs:31-43 | Decoding accepts exactly the frames of valid bodies and returns the body. |
| `Framing.DecodeErrorsAre` | helper/owner-protocol/src/framing.rs:31-43 | Which refusal a frame has: cut short, an impossible length, or bytes behind it. |
| `Framing.Fill` | helper/owner-protocol/src/framing.rs:50-57 | Whatever the reader's short reads and interruptions, a buffer is filled with exactly the next bytes, or the stream ended inside it. |
| `Framing.ReadOuterFrame` | helper/owner-protocol/src/framing.rs:47-72 | Reading one frame depends on the data alone, not on how the reader hands it over. |
| `Framing.StreamReadsBack` | helper/owner-protocol/src/framing.rs:20-72 | A stream of any valid frames is read back body by body to a clean end. |
| `Framing.CutInsideFrameIsTruncated` | helper/owner-protocol/src/framing.rs:47-72 | A stream cut anywhere inside a frame ends in a truncation, after the bodies of all earlier frames. |
| `Framing.ReadAll` | helper/owner-protocol/src/framing.rs:47-72 | Repeated reading under any schedule yields exactly those bodies and that end. |
| `ReleasePolicy.ValidHeaderIs` | helper/owner-protocol/src/schema/protocol.rs:172-188 | A protocol header is valid if and only if major and epoch are 1, the base bit is supported, and exactly the base bit is required. |
| `ReleasePolicy.BitsWithinIs` | helper/owner-protocol/src/schema/protocol.rs:172-188 | The recursive test of feature bits is the bitwise one: every bit required is supported. |
| `ReleasePolicy.InOrderExactlyWhen` | helper/owner-protocol/src/release_policy.rs:226-237 | When a policy is in order, in literal numbers. |
| `ReleasePolicy.HeadLayout` | helper/owner-protocol/src/release_policy.rs:149-173 | The bytes of the head at their offsets. |
| `ReleasePolicy.DecodesExactlyEncodings` | helper/owner-protocol/src/release_policy.rs:175-237 | A blob is accepted as a policy if and only if the policy is valid and the blob is its encoding: decoding and encoding are inverse on all valid policies and all accepted blobs. |
| `ReleasePolicy.DecodeErrorsAre` | helper/owner-protocol/src/release_policy.rs:175-225 | Which refusal a blob has, in the order of the checks. |
| `ReleasePolicy.ProtocolDecodes` | helper/owner-protocol/src/release_policy.rs:240-264 | A protocol header is read back from its 24 bytes. |
| `ReleasePolicy.ProtocolEncodes` | helper/owner-protocol/src/release_policy.rs:240-264 | 24 bytes are rewritten by the header they read as. |
| `ReleasePolicy.EncodeProtocol` | helper/owner-protocol/src/release_policy.rs:240-246 | Filling the header's place in the buffer writes exactly its bytes. |
| `ReleasePolicy.Encode` | helper/owner-protocol/src/release_policy.rs:149-173 | Filling the fixed buffer field by field produces exactly the encoding; an invalid policy is refused with its fault. |
| `MaintenanceRecord.Encode` | helper/owner-protocol/src/macos_maintenance.rs:67-93 | Filling the fixed buffer produces exactly the encoding; an invalid record is refused. |
| `MaintenanceRecord.ValidRecordsAre` | helper/owner-protocol/src/macos_maintenance.rs:135-150 | Which records are valid, in literal numbers. |
| `MaintenanceRecord.HeadLayout` | helper/owner-protocol/src/macos_maintenance.rs:67-93 | The bytes of the head at their offsets. |
| `MaintenanceRecord.DecodesExactlyEncodings` | helper/owner-protocol/src/macos_maintenance.rs:95-149 | A blob decodes to a record if and only if the record is valid, none of its present targets is zero, and the blob is its encoding. |
| `MaintenanceRecord.AcceptedReencodes` | helper/owner-protocol/src/macos_maintenance.rs:95-149 | Every accepted record is valid and encodes to the same bytes. |
| `MaintenanceRecord.NoneIsBlank` | helper/owner-protocol/src/macos_maintenance.rs:95-101 | "None" is read from the all-zero record and from no other. |
| `MaintenanceRecord.RoundTripsExactlyWhen` | helper/owner-protocol/src/macos_maintenance.rs:67-149 | A valid record survives the wire exactly if its present targets are not zero; otherwise decoding refuses it. |
| `MaintenanceRecord.ZeroTargetIsRefused` | helper/owner-protocol/src/macos_maintenance.rs:120-149 | A concrete valid update with zero targets that is written and not read back. |

## Left out

- Windows and macOS system calls, handles, access control lists, registry transactions and alternate-data-stream mechanics: the file system is an abstract state whose calls may fail.
- SHA-256 and JSON: uninterpreted functions; a strict prefix of a record's bytes is assumed not to parse, or to parse to the same value.
- The reducer, owner state, session codec, protocol server and stream transport: they are not part of this model, and where the core asks them, any answer is allowed.
- Disk order: the operations on one directory persist in the order they were made and a power failure loses a suffix of them; contents that a recovery renames are taken as flushed with their names, and several directories of one root share one order.
- Two processes at once on one record or one root: only one process acts at a time.
- RecordFolder.RecordFolder.Publish: starts only when no complete temporary is left, as the calling script ensures by recovering first; torn ones may be there.
- PlatformAdapter.PlatformAdapter.IngestAllNativeEvents: arrivals during the loop count as arrivals before it, since the channel is a sequence.
- PlatformAdapter.PlatformAdapter.EmergencyClose: its watermark covers only what was numbered, because the source does not drain the channel there.
- Activation bindings, the callback gate, clipboard hashes, permissions, the front application and observability counters of the bridge.
- OwnerRuntime.OwnerRuntime.Step: what the server keeps for itself is not modelled, so `recover_fatal_runtime_fault` has no effect here.
- OwnerRuntime.Live: the endless `run` loop is any finite number of steps.
- OwnedTreeRemoval.Volume.InventoryDirectory: entries come in walk order; the source sorts them by path afterwards, which does not change the map they mean.
- Case-insensitive opens: opening a listed name opens that entry, so siblings that differ only in case are taken as told apart.
- The repair of an entry's access control list when it cannot be opened, and the older removal by identity of the root alone.
- DirectoryNames.Directory.DirectoryNames: offsets are unbounded numbers, as they are on 64-bit targets.
- CommandLine.Compose: arguments are Unicode text; the UTF-16 form with its terminator is not modelled.
- The launcher's process guard and broker loop, and `helper/src/framing.rs`, which repeats the framing shown here.
- Framing.Reader.Read: a reader answers a finite schedule of interruptions and failures, and from then on gives all it can.
- Real threads, wall-clock time and poisoned locks: deadlines are arbitrary booleans and channels are sequences.
- Electron, renderer, installer and signing code.
