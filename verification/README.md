# CyComAgent: verified models of the runtime's stateful parts

CyComAgent is an agent runtime written in Go. This project models, in Dafny, the
parts of it that keep state, run as a protocol, or print something another
program must read back, and proves what those parts promise. Parsing of files,
processes, sockets and clocks appear only through what they can answer: a
process is alive or gone, a write succeeds, fails or is cut short, a message
arrives.

Two forms occur side by side. Where goroutines, processes or crashes interleave,
a module defines a step system: a `World`, an `Enabled`/`Apply` pair over
`Step`, `Run` over any sequence of steps and `Reachable`; an invariant is proved
for every step, and the main theorems speak of every reachable world. Where the
program updates an object under a lock, a class has the same fields. The
methods of most classes take steps of the system themselves: a ghost field `W`
holds the world reached, so that the theorems hold of the object. Those of
`JobManager.Manager`, which has many watchers at work on it, are proved to change
memory and disk exactly as the matching step does, from every world that agrees
with both (the predicates `Does` and `DoesRecover`).

| file | content |
|---|---|
| `Text.dfy` | byte strings: order, sorting, joining, `strings.Index`, `Count`, `Replace`, file extensions |
| `Shell.dfy` | a POSIX shell reader (XCU sections 2.2, 2.3 and 2.9.3 of POSIX.1-2017), both quoters, the remote command printer |
| `Jobs.dfy`, `JobOutcomes.dfy`, `JobEndings.dfy`, `JobManager.dfy` | the durable job manager: the system of jobs, processes, watchers, signals, crashes and recovery; what each event makes of a record; which terminating jobs can still end; its methods |
| `LogTail.dfy`, `CappedBuffer.dfy` | the job log's ring, the capped output buffer |
| `StdioRpc.dfy`, `StdioClient.dfy` | the JSON-RPC client over a helper's pipes: the system, the locked methods |
| `EnvSignature.dfy` | the helper's environment: isolated overlay, reuse signature |
| `Reason.dfy` | translation, validation and stripping of the call reason |
| `Calls.dfy`, `ActiveCalls.dfy`, `ToolsCall.dfy`, `RegistryCall.dfy` | concurrent tool calls through interceptors and the audit logger; when a call is listed as active; what of a client's request reaches the handler; one caller's run |
| `SchemaTree.dfy`, `Schema.dfy`, `ToolTable.dfy` | schema normalisation on values, on the heap without aliasing, and in the table of tools |
| `AtomicFile.dfy`, `DiskFiles.dfy` | replacement by temporary file and rename: the system of writers, crashes and power loss; one process's disk |
| `Patch.dfy`, `Store.dfy` | the text edits of `fs_patch`, the key-value store, both on that disk |
| `Bridge.dfy`, `BridgeTable.dfy`, `BridgeRouter.dfy` | the browser bridge: the system of callers and connections; whose entry an id has when ids are shared; its shared variables |
| `Targets.dfy` | the durable table of remote targets |
| `AuditLog.dfy` | the day files of the audit log and reading their newest events |

Some results describe where the code does less than one might expect, each with
a witness and the exact condition.

- A job told to terminate may stay `terminating` until the next recovery
  (`JobEndings.SignalledMayStick`). It can end before exactly when it was started
  in this life of the runtime, not recovered, and has no exit code yet
  (`JobEndings.SignalledEndsIff`).
- Two overlapping calls with the same tool and arguments share an active entry,
  and the first to end hides the other (`ActiveCalls.CollisionHidesCall`). A call
  in progress is listed exactly when no other call with its id has deleted the
  entry since it was last put (`ActiveCalls.ListedUnlessHidden`); so repeating a
  call after it has ended is no harm (`ActiveCalls.UnoverlappedListed`).
- A second reply for one request id can block the bridge's reader for good
  (`Bridge.TwoRepliesMayStick`); it can still go on exactly when the caller has
  not left its select (`Bridge.ReleasedOnlyByCaller`). If two requests shared an
  id one could lose its entry (`BridgeTable.SharedIdLosesCall`), exactly when
  another has entered or left under it since (`BridgeTable.InTableUnlessDisplaced`).
- The job manager renames without fsync, so a power failure can leave a record
  empty (`AtomicFile.UnforcedMayBeLost`). A file survives every power failure
  exactly when its present content has been forced to disk or every prefix of it
  would pass for whole (`AtomicFile.DurableExactly`); so what a replacement puts
  there survives exactly when the replacement calls fsync or that holds of its
  data (`AtomicFile.RenameDurableExactly`).
- Normalising a target twice differs from once for a transport of white space
  only (`Targets.NormalizeTwice`).
- The entries of a namespace lie below `kv/` exactly when its safe name is not
  `..` (`Store.BelowKvExactly`); that one reaches the files beside it
  (`Store.NamespaceReachesTargets`).

To verify: `dafny verify dfyconfig.toml`.

## Model

| member | source | states |
|---|---|---|
| Shell.ShellQuoteReadsBack | internal/targets/manager.go:397 | shellQuote is a right inverse of the shell reader: any string, quotes and blanks included, reads back as that single word |
| Shell.ShellJoin | internal/tools/system.go:472-478 | the printed line reads back as exactly the argument list, empty strings and quotes included |
| Shell.BuildRemoteCommand | internal/targets/manager.go:345-382 | the line, read as a POSIX AND list, is exactly: cd to the call's directory, or to the target's if the call has none; one export for each name of either environment in ascending order, the call's value before the target's; the final shell, under sudo when privileged. It fails exactly when a name is invalid and then names the least one |
| Shell.CheckEnvName | internal/targets/manager.go:383-396 | the loop accepts exactly non-empty names of letters, underscores and, after the first place, digits |
| Shell.PlanExactly | internal/targets/manager.go:345-382 | the plan command by command, said of the target and the call alone |
| Shell.EnvironmentOfCommand | internal/targets/manager.go:354-374 | the remote command finds the call's value of each name the call sets, the target's of each other name the target sets, and every other variable as it was |
| Shell.PartsRead | internal/targets/manager.go:345-382 | cd, export and command parts, joined with the AND operator, read back as the plan whatever bytes directory, values and command hold |
| Shell.JoinedArgsRead | internal/tools/system.go:472-478 | reading quoted arguments one after another from any reader state adds exactly those words |
| Shell.PlanMeaning | internal/targets/manager.go:351-374 | running the plan leaves the environment overridden by the merged one, which Shell.EnvironmentOfCommand spells out |
| Shell.PlanInjective | internal/targets/manager.go:345-382 | requests with the same plan agree on directory, environment, command and privilege: the line loses nothing |
| Jobs.RunningHasOneWatcher | internal/jobs/manager.go:90-98 | in every reachable state a running or running-recovered job has exactly one watcher, for its own pid, of the kind its status tells |
| Jobs.GoneJobEnds | internal/jobs/manager.go:158-208 | once the process of a running job is gone its watcher can fire, and any firing ends the job with an exit code |
| Jobs.EndedLeftOnlyBySignal | internal/jobs/manager.go:231-256 | an ended job keeps its whole record under every step but a signal to it, and changes status exactly on TERM, INT or KILL, to terminating |
| JobEndings.TerminatingEndsIffOwnWatcher | internal/jobs/manager.go:360-379 | a terminating job can still end before the next crash exactly when its parent waiter or external monitor is attached; the recovery monitor ignores it |
| JobEndings.TerminatingEndsIff | internal/jobs/manager.go:158-208 | said of the job itself: exactly when it was started in this life of the runtime and has no exit code yet |
| JobEndings.SignalledEndsIff | internal/jobs/manager.go:231-256 | whatever a job's status before TERM, INT or KILL, it can still end before the next crash exactly when it was started, not recovered, in this life of the runtime and has no exit code yet |
| JobEndings.SignalledMayStick | internal/jobs/manager.go:360-379 | a job started, recovered after a crash and then told to terminate reaches a state from which it never ends before the next crash |
| Jobs.RecoveryYieldsPersisted | internal/jobs/manager.go:323-358 | after a crash at any point the recovery steps, in any directory order and with any writes failing, bring memory to exactly the persisted jobs: a live one is running-recovered if its process lives and otherwise exited-while-offline with code -1, stamped now, and any other is as it was; with no failed write disk equals memory |
| Jobs.RecoveryInterrupted | internal/jobs/manager.go:323-358 | a recovery cut short by a crash after any part of the directory and a full one later give the jobs the first would have given but for times, while the same processes live |
| Jobs.CrashLosesNothingPersisted | internal/jobs/manager.go:144-156 | a job whose last write went through comes back from a crash with the record memory held |
| Jobs.PruneExact | internal/jobs/manager.go:303-321 | prune forgets exactly the ended jobs not updated after the cutoff, in memory and, but for files that could not be removed, on disk; all else is untouched, and memory and disk agree wherever they did |
| Jobs.ReachableInv | internal/jobs/manager.go:144-392 | every run keeps: an ended job has an exit code, a code other than -1 is the one its own process returned, memory and disk agree where the last write succeeded, running jobs are watched |
| JobOutcomes.RecordOutcome | internal/jobs/manager.go:144-156 | a recorded job runs, has no code and no error, and is about to be watched; only its record changes |
| JobOutcomes.WaiterOutcome | internal/jobs/manager.go:158-183 | in every reachable state the waiter records the code its process left with, or -1 and the message, and the job becomes terminated exactly if it was terminating and exited exactly if it was running |
| JobOutcomes.ExternalOutcome | internal/jobs/manager.go:185-208 | in every reachable state the external monitor records -1, and the job becomes terminated exactly if it was terminating and exited-external exactly if it was running |
| JobOutcomes.RecoveryOutcome | internal/jobs/manager.go:360-379 | in every reachable state the recovery monitor ends a running-recovered job with -1 and leaves a terminating one, in memory and on disk, alone |
| JobOutcomes.SignalOutcome | internal/jobs/manager.go:231-250 | TERM, INT and KILL make a job terminating whatever its status was, other signals keep it; code and error stay |
| JobOutcomes.RecoverOutcome | internal/jobs/manager.go:339-356 | one file recovered: a live job runs again, under a recovery monitor, exactly if its process lives, and is otherwise exited-while-offline with -1; others come back as they were |
| JobOutcomes.PruneOutcome | internal/jobs/manager.go:303-321 | a prune forgets exactly the jobs that neither run nor are terminating and were updated no later than the cutoff |
| JobManager.Manager.RecordStartedJob | internal/jobs/manager.go:144-156 | enters a fresh running record in memory, and on disk if the write succeeds |
| JobManager.Manager.FinishJob | internal/jobs/manager.go:158-183 | updates exactly this job, and nothing when it is unknown: code 0, the exit error's code, or -1 with the message; terminated after terminating, otherwise exited; just as the waiter's step in the system does from any world that agrees |
| JobManager.Manager.MonitorExternal | internal/jobs/manager.go:185-208 | updates exactly a live job, otherwise nothing: code -1, terminated after terminating, otherwise exited-external; as the external monitor's step does |
| JobManager.Manager.MonitorRecovered | internal/jobs/manager.go:360-379 | updates exactly a running-recovered job, otherwise nothing: code -1, exited-after-recovery; as the recovery monitor's step does |
| JobManager.Manager.SendSignal | internal/jobs/manager.go:231-256 | TERM, INT and KILL make the job terminating, other signals keep its status, none touches code or error; returns the pid, or the negated process group, to be signalled |
| JobManager.Manager.Prune | internal/jobs/manager.go:303-321 | walking the map in any order removes exactly the prunable ids, leaves on disk only those whose file could not be removed, and returns their number |
| JobManager.Manager.Recover | internal/jobs/manager.go:323-358 | walking the files in any order loads exactly what recovery makes of them and launches monitors for exactly the running-recovered ones |
| JobManager.Manager.RecoverOne | internal/jobs/manager.go:333-356 | one file is loaded, updated and written back as its step in the system does |
| LogTail.Tail | internal/jobs/manager.go:258-301 | the result is the last lines, as many as asked for or 200, of the file's final bytes, as many as asked for or 256 KiB when that is out of range, joined; truncated exactly when the file is longer |
| LogTail.ReadRing | internal/jobs/manager.go:288-296 | the shifting ring ends with exactly the last n lines in order |
| LogTail.LinesOfPrinted | internal/jobs/manager.go:286-296 | scanning lines printed one after another, with or without an unfinished one, gives back those lines |
| LogTail.LinesExactly | internal/jobs/manager.go:286-296 | a line ends at the next newline and loses one carriage return before it; a last line without a newline is read as the others |
| CappedBuffer.Buffer.Write | internal/tools/common.go:45-59 | over any writes the buffer holds the first bytes up to the limit, truncated says whether a write found it full or did not fit, and every write reports its full length |
| CappedBuffer.TruncatedExactly | internal/tools/common.go:45-59 | truncated is set exactly when the buffer is not all that was written or an empty write met a full buffer |
| CappedBuffer.TruncatedMeansDropped | internal/tools/common.go:45-59 | so it is set whenever bytes were dropped and, if no write is empty, only then |
| StdioRpc.AnswerMatchesRequest | internal/tools/stdio_mcp_linux.go:81-152 | a reply carries the id of the request that waited for it and was read from the process it was written to, one started under the signature the call wanted; it counts as an answer exactly when it has no error member |
| StdioRpc.LateReplyNeverUsed | internal/tools/stdio_mcp_linux.go:127-139 | after a cancelled, broken or unwritten request no later request uses its process, so a late reply is never given to a later call |
| StdioRpc.AnswersDistinct | internal/tools/stdio_mcp_linux.go:107-125 | no message is the reply, result or error, to two requests |
| StdioRpc.OneReader | internal/tools/stdio_mcp_linux.go:107-125 | no decoder ever has two readers, and the live decoder has one only while its call waits |
| StdioRpc.WrittenAtMostOnce | docs/anyapp-linux.md:31-32 | no replay: a call writes its own request at most once, after at most one handshake |
| StdioRpc.FieldsTogether | internal/tools/stdio_mcp_linux.go:22-29 | cmd, stdin and decoder are all set or all nil and belong to one process started under the recorded signature |
| StdioRpc.IdsRepeatOnlyOnWrap | internal/tools/stdio_mcp_linux.go:85-86 | two requests to one process share an id only when the 64-bit counter has wrapped around between them |
| StdioClient.StdioState.RpcLocked | internal/tools/stdio_mcp_linux.go:81-152 | writes one request with the next id and replies as the write, the arriving messages and the context dictate, case by case as in StdioClient.ReplyExactly and StdioClient.NoReplyExactly; a result or upstream error leaves the client's process as it is, and anything else stops it |
| StdioClient.AwaitedIsFirst | internal/tools/stdio_mcp_linux.go:107-125 | the message awaited is the first with the id, if only messages with other ids come before it |
| StdioClient.ReplyExactly | internal/tools/stdio_mcp_linux.go:127-151 | a message is returned as the result exactly when the request was written, the context does not win, the message has no error member and is the first with the id, only messages of other ids coming before it; as the upstream error exactly when it has one |
| StdioClient.NoReplyExactly | internal/tools/stdio_mcp_linux.go:87-141 | the exact conditions of a write error, a context error and a read error |
| StdioClient.StartingExactly | internal/tools/stdio_mcp_linux.go:31-79 | a helper is ready exactly when it is reused, or started, greeted, answered first with id 1 without an error, and notified |
| StdioClient.StdioState.ReadUntil | internal/tools/stdio_mcp_linux.go:107-125 | the reader delivers exactly the awaited message, skipping others, or a decode failure when that comes first |
| StdioClient.StdioState.EnsureStartedLocked | internal/tools/stdio_mcp_linux.go:31-79 | a running process is reused, with nothing written, exactly when it was started under the wanted signature; otherwise a new one is ready exactly when it starts, answers the greeting without error and takes the notification; any failure, an error in answer to the greeting included, leaves the client stopped |
| StdioClient.StdioState.CallTool | internal/tools/anyapp_linux.go:150-160 | a call returns exactly what start-up and its own request come to, writes that request exactly when the helper is ready, adds no requests for other calls, and keeps the helper running exactly when it is answered, be it by an upstream error |
| EnvSignature.Overlay | internal/tools/anyapp_linux.go:306-329 | read last entry wins, the result is the well-formed input without DISPLAY overridden by the fixed variables, in whatever order the map is walked |
| EnvSignature.KeyExactly | internal/tools/anyapp_linux.go:308-312 | an entry's name is what comes before its first equals sign, if anything does |
| EnvSignature.LastEntryWins | internal/tools/anyapp_linux.go:306-329 | the last entry of a name gives its value |
| EnvSignature.BasePath | internal/tools/anyapp_linux.go:274-287 | the path is the first PATH entry's value, and if there is none or it is empty the process's own, or the built-in one |
| EnvSignature.FixedExactly | internal/tools/anyapp_linux.go:289-305 | the desktop's own display, runtime directory and pointer socket, and a PATH that begins with the directory of the pointer shim, then the local one, then the path there was |
| EnvSignature.IsolatedEnv | internal/tools/anyapp_linux.go:249-330 | without an isolated desktop the environment is unchanged; with one it is the overlay of the fixed set, has that desktop's display and runtime directory, a PATH with the shim's directory first, and no DISPLAY |
| EnvSignature.SignatureOf | internal/tools/anyapp_linux.go:332-347 | the loop computes the signature the lemmas speak of |
| EnvSignature.WantedExactly | internal/tools/anyapp_linux.go:333-343 | the entries that count for the signature are exactly those of the ten names |
| EnvSignature.CombinedReadsBack | internal/tools/anyapp_linux.go:226-231 | for NUL-free entries the combined signature splits back into the sorted selected entries and the fingerprint |
| EnvSignature.CombinedCanonical | internal/tools/anyapp_linux.go:226-231 | two combined signatures are equal exactly when the same entries are selected, each as often, and the fingerprint is the same |
| EnvSignature.OrderIrrelevant | internal/tools/anyapp_linux.go:332-347 | the order of the environment does not show in the signature |
| EnvSignature.HelperReusedExactly | internal/tools/stdio_mcp_linux.go:32-35 | in every reachable state a call keeps the running helper exactly when its environment selects the same entries and the binary is unchanged |
| Reason.ValidateReason | internal/registry/registry.go:203-255 | the token loop answers exactly: duplicated on a second top-level reason, none for one non-blank string reason in a complete object, required otherwise |
| Reason.CheckExactly | internal/registry/registry.go:203-255 | that answer, said of the places of the members named reason |
| Reason.LastMemberWins | internal/registry/registry.go:190-194 | decoding into a Go map gives a name the value of its last member |
| Reason.AcceptedExactly | internal/mcp/server.go:372-406 | translation and validation together let a call through exactly when absent or object arguments carry one reason in the first place that has any, or compatibility mode may supply it |
| Reason.HandlerSeesClientArguments | internal/registry/registry.go:190-201 | interceptors see one top-level non-blank reason, and the handler sees, once for each other name the client sent, the value of that name's last member, and no other name |
| Reason.ReasonSeen | internal/mcp/server.go:388-400 | the reason interceptors see is not blank and is the one inside the arguments, else the one beside them, else the one in _meta, else the fixed fallback text |
| Reason.ClientArgumentsExactly | internal/registry/registry.go:190-201 | what is passed on under a name is the value of its last member, for every name but reason |
| Reason.TranslatedExactly | internal/mcp/server.go:372-406 | translation touches a call exactly when its arguments are absent or an object, hold no reason, and one is to be had elsewhere: an inner reason is never overridden and non-objects are never made into objects |
| Reason.DecodeEncode | internal/mcp/server.go:401-405 | encoding a Go map and decoding it again gives the same map |
| Calls.FinishedCallDid | internal/registry/registry.go:334-364 | in every interleaving a finished call has done exactly: BeforeCalls up to the first failure, the handler on stripped arguments if none failed, every AfterCall once with unstripped arguments and the caller's error; nothing if the reason was invalid |
| Calls.FinishedCallExactly | internal/registry/registry.go:334-364 | the same event by event: which BeforeCalls ran and with what outcome, the handler's place, and each AfterCall's arguments and error |
| Calls.HandlerRunsExactlyWhen | internal/registry/registry.go:345-358 | the handler has run exactly when the reason is valid and no BeforeCall failed |
| Calls.OneEntryPerCall | internal/audit/logger.go:68-86 | a finished validated call has added one log entry per logger in its chain, with its tool, arguments and error; an invalid one none |
| Calls.ActiveInFlight | internal/audit/logger.go:60-73 | every active id belongs to a call in flight, and with none in flight the map is empty, even when ids collide |
| ToolsCall.HandlerGetsClientArguments | internal/mcp/server.go:372-406 | at any moment of any interleaving, a handler that has run for a request was given, once for each name other than reason the client sent, the value of its last member, and no other name, and the request was acceptable as the client sent it |
| ToolsCall.HandlerRunsIffAcceptable | internal/registry/registry.go:342-364 | for a finished call the handler has run exactly when the request was acceptable and no BeforeCall failed, on the values of the client's last members without the reason |
| ActiveCalls.ActiveIsLastTouch | internal/audit/logger.go:60-73 | an id is active exactly when it was last put and not deleted, by whichever calls have it |
| ActiveCalls.ListedUnlessHidden | internal/audit/logger.go:60-73 | a call the logger has seen begin and not end is listed exactly when no other call with its id has deleted the entry since it was last put |
| ActiveCalls.UnoverlappedListed | internal/audit/logger.go:60-73 | a call whose earlier equals have ended when it starts, and before whose end none starts, is listed exactly while the logger has seen it begin and not end |
| ActiveCalls.ActiveExactWhenDistinct | internal/audit/logger.go:60-73 | so is a call whose id no other call ever has |
| ActiveCalls.CollisionHidesCall | internal/audit/logger.go:48-51 | two overlapping calls with equal tool and arguments: when one ends the other is in flight but no longer active |
| RegistryCall.Registry.Call | internal/registry/registry.go:342-364 | one call run to completion does exactly what the system says a whole call does, and answers invalid, vetoed with the first failing BeforeCall's error, or handled accordingly |
| RegistryCall.Registry.BeforeAll | internal/registry/registry.go:348-355 | the loop stops at the first BeforeCall that fails |
| RegistryCall.Registry.AfterAll | internal/registry/registry.go:360-362 | the loop runs every AfterCall of the call's own snapshot once |
| SchemaTree.NormalisedExact | internal/registry/registry.go:166-188 | a schema is accepted exactly when its required value, if any, lists distinct strings; the result has the string reason property, the caller's required entries in order and reason once, and is otherwise the caller's schema |
| SchemaTree.StoredExactly | internal/registry/registry.go:166-188 | part by part: property reason is a string with the fixed description, the other properties are the caller's, the required list keeps its Go type and order with reason at its end unless it was there, all else is the caller's |
| SchemaTree.RefusedExactly | internal/registry/registry.go:127-164 | a refused schema has a required value that is no list, or its first entry that is not a string or repeats an earlier one decides the error |
| SchemaTree.NormalisedTwice | internal/registry/registry.go:166-188 | normalising twice equals normalising once |
| SchemaTree.AppendExact | internal/registry/registry.go:127-164 | the required list is accepted exactly when it is of distinct strings, and then keeps its order and gains reason only if missing |
| Schema.CloneSchemaValue | internal/registry/registry.go:99-118 | the copy denotes the same value and consists of new maps and slices only, none occurring twice |
| Schema.AppendReason | internal/registry/registry.go:127-164 | the loop over the entries answers as the value function does, in a new slice |
| Schema.RequireReasonSchema | internal/registry/registry.go:166-188 | the result is the normalised schema in objects of its own, and nothing of the caller's schema is modified |
| ToolTable.Table.Add | internal/registry/registry.go:257-279 | a tool is stored under its normalised schema in new objects, or refused for the stated reason with the table unchanged |
| ToolTable.Table.Upsert | internal/registry/registry.go:281-300 | the same, replacing a tool of that name |
| ToolTable.Table.RemoveSource | internal/registry/registry.go:302-310 | exactly the tools of that source are gone, and every stored schema stays normalised |
| ToolTable.Table.RemoveSourcePrefix | internal/registry/registry.go:312-320 | exactly the tools whose source has the prefix are gone, and every stored schema stays normalised |
| AtomicFile.ReaderSeesOldOrNew | internal/state/store.go:90-117 | however replacements interleave, fail or are cut short between any two steps, a reader of a name sees its whole original content or all of what some replacement meant to put there, and an existing file goes missing only by deletion |
| AtomicFile.ForcedSurvivesPowerLoss | internal/targets/manager.go:450-471 | for names replaced only with fsync before rename this survives power failures |
| AtomicFile.OnlyPowerLossBreaks | internal/state/store.go:90-117 | in every reachable state, power failures included, a replacement makes its target whole and a whole file stays so under every step but a power failure |
| AtomicFile.DurableExactly | internal/state/store.go:107-116 | a whole file survives every power failure exactly when it has been forced to disk or every prefix of its content is old or somebody's new content |
| AtomicFile.RenameDurableExactly | internal/jobs/manager.go:386-391 | what a replacement has just put there survives exactly when it calls fsync or every prefix of its data is such content |
| AtomicFile.UnforcedMayBeLost | internal/jobs/manager.go:381-392 | without fsync a power failure may leave the target empty, neither old nor new |
| AtomicFile.ReachableInv | internal/state/store.go:90-117 | every run keeps each temporary file the work of one active writer and each other name whole |
| DiskFiles.Disk.Replace | internal/state/store.go:90-117 | success exactly when nothing goes wrong, then only the target has changed; an error changes nothing; a death leaves the target old or new and at most the temporary file behind |
| DiskFiles.Disk.RemoveFile | internal/state/store.go:62 | removes exactly that file, and says whether it was there |
| Patch.GapsCutLeftmost | internal/tools/filesystem.go:257 | a text is cut at the leftmost non-overlapping occurrences of a pattern, as many as are counted |
| Patch.LeftmostCutUnique | internal/tools/filesystem.go:257 | there is only one such cut |
| Patch.ReplaceFirstN | internal/tools/filesystem.go:261-265 | an edit replaces exactly the first count occurrences of that cut and nothing between them |
| Patch.EditExactly | internal/tools/filesystem.go:257-266 | one edit, for any leftmost cut of the text: every occurrence is replaced when the count is not positive or no less than they are, otherwise the first count, and as many are counted |
| Patch.ReplaceLength | internal/tools/filesystem.go:265 | replacing n occurrences changes the length by n times the difference of the lengths |
| Patch.LengthChanges | internal/tools/filesystem.go:252-267 | the final length is the original plus, over the edits, replaced count times (new length minus old length) |
| Patch.ApplyEdits | internal/tools/filesystem.go:250-267 | the texts on the way, each cut at the leftmost occurrences of the old text and put together with the new at all of them when the count is not positive or no less than they are, else at the first count; the total adds up the occurrences replaced; or the first edit whose old text is empty or does not occur is reported by number |
| Patch.OutcomeExactly | internal/tools/filesystem.go:250-267 | that holds of any outcome of a list of edits |
| Patch.OutcomeUnique | internal/tools/filesystem.go:250-267 | the original text and the edits determine the outcome: the text made and the count, or which edit fails and why |
| Patch.FsPatch | internal/tools/filesystem.go:240-298 | on success the file holds the last text of Patch.OutcomeExactly, the total is returned and only that file has changed; bad input, a missing file, a failing edit or an error leave the disk as it was; a death leaves old or new |
| Store.SafeName | internal/state/store.go:119-130 | the byte loop keeps letters, digits, hyphen, underscore and dot, and puts an underscore for every other byte |
| Store.SafeCollides | internal/state/store.go:119-130 | two names become one exactly when they differ only where both have a replaced character or an underscore |
| Store.SafeFixed | internal/state/store.go:119-130 | a name is its own safe form exactly when all its characters are kept; safe forms are fixed and hold no slash |
| Store.OrdinaryPath | internal/state/store.go:35-43 | a name of kept characters gives the path kv/namespace/key.json, but for the namespaces of no, one and two dots |
| Store.SameDir | internal/state/store.go:35 | two namespaces share a directory exactly when their safe names agree, counting "." as the empty one |
| Store.SameFile | internal/state/store.go:43 | two entries share a file exactly when directory and safe key agree |
| Store.BelowKvExactly | internal/state/store.go:35 | every entry of a namespace lies below kv/ exactly when its safe name is not "..", whose entries lie in the state directory itself |
| Store.NamespaceReachesTargets | internal/targets/manager.go:63 | the target table is such a file: namespace ".." and key "targets" reach it |
| Store.TempsAreNotEntries | internal/state/store.go:80-84 | neither the store's nor the job manager's temporary names can pass for an entry |
| Store.FetchedIffListed | internal/state/store.go:46-88 | an entry can be fetched exactly when its safe name is listed |
| Store.PutSeen | internal/state/store.go:29-54 | a Put is seen by every Get and List of entries that share its file, and by no others |
| Store.DeleteSeen | internal/state/store.go:56-63 | a Delete takes away exactly the entries that share its file |
| Store.Store.Put | internal/state/store.go:29-44 | with both names and an encodable value it succeeds exactly when the replacement finishes, and then that file alone changes; otherwise nothing does unless the process died renaming |
| Store.Store.Get | internal/state/store.go:46-54 | returns the entry's content, or not-exist |
| Store.Store.Delete | internal/state/store.go:56-63 | removes exactly that entry's file; errors change nothing |
| Store.Store.List | internal/state/store.go:65-88 | the names of the namespace's entries, each once, sorted; never a leftover temporary file; on a store that began empty each can be fetched |
| Bridge.CallerGetsOwnReply | cmd/cycom-browser-bridge/main.go:98-105 | whatever ids are used, a caller that gets a reply gets one with its own id, and no other caller gets that reply |
| Bridge.PendingExactlyUnfinished | cmd/cycom-browser-bridge/main.go:88-91 | with distinct ids the table holds exactly the calls that have not returned |
| Bridge.LateReplyDropped | cmd/cycom-browser-bridge/main.go:59-66 | with distinct ids a reply is dropped exactly when no unreturned call has its id |
| Bridge.SlotIsNewest | cmd/cycom-browser-bridge/main.go:41-52 | the slot holds the newest connection until that connection's own reader clears it; an older one closing never does |
| Bridge.OneReplyNeverStuck | cmd/cycom-browser-bridge/main.go:63-65 | with at most one reply per id no reader is ever kept waiting on a send |
| Bridge.ReleasedOnlyByCaller | cmd/cycom-browser-bridge/main.go:63-65 | a reader kept waiting can go on in some continuation exactly when the caller has not left its select |
| Bridge.TwoRepliesMayStick | cmd/cycom-browser-bridge/main.go:63-65 | two replies for one id and a timeout reach a state where the reader waits for good |
| BridgeTable.TableIsLastTouch | cmd/cycom-browser-bridge/main.go:88-91 | whatever ids are used, the table holds for an id exactly the call that was the last to enter under it, if none has left under it since |
| BridgeTable.InTableUnlessDisplaced | cmd/cycom-browser-bridge/main.go:88-91 | a call that has not returned keeps its entry exactly unless another call with its id has entered or left after it |
| BridgeTable.SharedIdLosesCall | cmd/cycom-browser-bridge/main.go:91 | two calls sharing an id: one returning takes the other out of the table |
| BridgeRouter.Router.Accept | cmd/cycom-browser-bridge/main.go:41-46 | the new connection takes the slot and the one replaced is the one just before it |
| BridgeRouter.Router.Lookup | cmd/cycom-browser-bridge/main.go:57-62 | a reply is routed to the channel registered under its id, if any |
| BridgeRouter.Router.Send | cmd/cycom-browser-bridge/main.go:63-65 | a send that does not block puts the reply in that channel, which was empty |
| BridgeRouter.Router.Leave | cmd/cycom-browser-bridge/main.go:47-53 | a closing connection clears the slot exactly when it is the newest |
| BridgeRouter.Router.Register | cmd/cycom-browser-bridge/main.go:81-90 | refused exactly without a connection; otherwise the id gets an empty channel of its own |
| BridgeRouter.Router.Write | cmd/cycom-browser-bridge/main.go:92-97 | a failed write ends the call and takes its id out of the table, a good one leaves it waiting |
| BridgeRouter.Router.Await | cmd/cycom-browser-bridge/main.go:91-105 | from the select on, after whatever replies came in since the write: the caller gets what is in its channel, with its own id, or a timeout, and its id leaves the table |
| Targets.NormalizeTwice | internal/targets/manager.go:90-105 | normalising twice equals once exactly when the transport is empty or has more than white space |
| Targets.NormalizeExactly | internal/targets/manager.go:90-105 | the name is trimmed, an absent transport is ssh and any other trimmed and in lower case, ssh without a port has port 22, a local target is enabled, all else stays |
| Targets.TrimIsMiddle | internal/targets/manager.go:91 | trimming takes white space off both ends and nothing else |
| Targets.AcceptedExactly | internal/targets/manager.go:107-130 | which raw targets Upsert accepts: name not blank and not local, transport absent or ssh in any case, port 0 to 65535, clean host and user |
| Targets.RefusedExactly | internal/targets/manager.go:107-130 | which error a refused raw target meets: that of the first check it fails |
| Targets.CheckedIsGood | internal/targets/manager.go:107-130 | passing the checks is exactly being good, and a good target is its own normal form |
| Targets.ListsUnique | internal/targets/manager.go:437-443 | the list written for a table is determined by it, whatever order the map is walked in |
| Targets.LoadRebuilds | internal/targets/manager.go:70-88 | loading what was written rebuilds exactly the same table |
| Targets.LastEntryLoaded | internal/targets/manager.go:82-86 | of several entries of a file with one name the last is loaded |
| Targets.Manager.constructor | internal/targets/manager.go:62-88 | from no file or one a manager wrote the table is the one written, in sync with the file |
| Targets.Manager.PersistLocked | internal/targets/manager.go:437-471 | after a successful write the file lists the table; after a failed one it is as before |
| Targets.Manager.Upsert | internal/targets/manager.go:107-137 | a failing check, reported in order, changes nothing; otherwise the target, its name trimmed, ssh filled in and port 22 if it had none, replaces that name alone, every entry stays good, and success means the file holds the table |
| Targets.Manager.Remove | internal/targets/manager.go:139-150 | local is refused, an unknown name reported, otherwise that name alone is gone and success means the file holds the table |
| Targets.Manager.Get | internal/targets/manager.go:152-163 | answers the implicit local target, a stored good one of that name, or not-exist |
| Targets.Manager.List | internal/targets/manager.go:165-175 | the table and local, each exactly once, by strictly increasing name |
| AuditLog.BackwardsExactlyInOrder | internal/audit/logger.go:128-145 | reading the day files newest first gives the history backwards exactly when event dates never went back |
| AuditLog.ByDaysReverses | internal/audit/logger.go:128-145 | for non-decreasing dates the days read backwards are the whole history backwards |
| AuditLog.Logger.Append | internal/audit/logger.go:88-99 | the event goes to the end of its day's file, all day files keep holding their day's events in order |
| AuditLog.Logger.DayFiles | internal/audit/logger.go:116-127 | exactly the names with the extension, each once, in descending order |
| AuditLog.Logger.Tail | internal/audit/logger.go:112-151 | the nested loops return the newest events, as many as the limit or 100 when it is out of range; for non-decreasing dates the last ones appended, newest first |
| AuditLog.ParsedConcat | internal/audit/logger.go:136-141 | lines that do not parse are skipped, and nothing else |
| AuditLog.AppendBackwards | internal/audit/logger.go:142-144 | the inner loop appends a file's events from its end until the limit is reached |

## Left out

- Bytes of JSON: messages, records and schemas are trees or fields already parsed, with object members in order; invalid UTF-8 and numbers' spelling are not modelled.
- A Dafny char stands for one byte of a Go string; lower-casing and trimming of target names know ASCII only (trimming of reasons knows Unicode space).
- Real processes, signals, pipes, sockets, SSH and HTTP: what they answer is a parameter or a step. Pids and job ids are not reused.
- SHA-256: the id of a call is any function of tool and arguments.
- Clocks: times are numbers that do not go back; audit dates have four-digit years, so that their text order is date order.
- Panicking handlers, and log appends that fail, in `Calls`; the lookup of a tool by name, which refuses an unknown one before any of this.
- The order of reading the audit directory when a file cannot be opened, and lines over the scanner's limit, there and in the job log.
- That the program recovers files without holding the job manager's lock, while recovery monitors already launched take it: recovering one file is one step here.
- Corrupt job files, which recovery skips; the default retention times of the prune operations; pruning of the audit log.
- Aliasing of target maps and slices (the program clones them for callers): targets are values.
- Output schemas, and the listing of tools, which hands out stored schemas.
- A rename that reaches the disk late: a power failure keeps the directory as it is and cuts file contents only.
- Random temporary names are taken to be free and not used before in `DiskFiles` and `Store`; `AtomicFile` also covers a name used again when nobody is writing to it, as the job manager does.
- File modes, and the race between reading a file and replacing it, in `fs_patch`.
- A directory operand of the remote `cd` that starts with a hyphen reads back as the right word; that cd takes it as an option is not part of the model.
- Discovery of the helper's tools, decoding of its results, request cancellation inside the operating system.
- Display control, desktop capture, plugins, session bridge, root broker, Termux, macOS and Windows adapters, protocol version detection and policy checks: plumbing and short case splits.
- The other copies of the capped buffer: the same code.
