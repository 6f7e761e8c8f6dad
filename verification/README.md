# A verified model of mcsm

mcsm supervises Minecraft servers. Several instances of it may share server directories over a network
mount; each directory has one `owner.json` that says which slot of which instance drives the server in it.
A slot mounts a server, starts its JVM, watches its health, stops it and cleans up after it, while API
calls, a health loop, a stop goroutine and an exit watcher act on the same fields.

This project models that behaviour in Dafny and proves what holds over every run. It covers:

| module | what it models |
|---|---|
| `Lock`, `LockProtocol`, `LockRelease` | the owner file, its staleness rule, acquire, refresh and release, and every interleaving of them over any number of instances, slots and directories, with clocks that disagree; how a release and its heartbeat goroutine wait for each other |
| `Process` | the exit channel that gives one real value and then zero values |
| `SlotMachine`, `SlotRuns`, `Slot` | the seven-state slot machine: each method body and goroutine wake-up as a step, whole runs of them, and the slot object itself |
| `Fleet` | slots and lock protocol together |
| `Properties` | the `server.properties` reader and the patcher that rewrites the file around it |
| `Wire`, `Rcon`, `VarInt`, `Slp` | the packet codecs and the sessions between mcsm's clients and the stand-in server of `cmd/fake-mc-server` |
| `Ring` | the circular log buffer and the shifting history |
| `AuditPages`, `AuditLog` | cursor pagination over a moving ring; backward file scans, restarts and id assignment |
| `Metrics` | the series map keyed by an escaped string |
| `PubSub` | the event bus and the log broadcaster |
| `Federation` | the merge of several instances' catalogues |
| `Paths`, `Backup`, `Restore` | the cleaning of names, the archive walk and the restore |

Code that changes state step by step is a class or a loop proved against a function on values; the laws are
proved about that function. `Prelude` holds a small shared vocabulary.

## Run rules

The theorems about runs hold for runs of this kind.

* A method body or goroutine wake-up is one step, and so are `TryAcquire`'s read and write together. `Start`
  is split where others can act in between: the guard, the acquisition, and the attachment or failure.
* A clock reads between the true time and `skew` later. `LockProtocol.Timely` says that a live holder's last
  write plus the skew is at most 60 seconds old. Nothing is assumed about who forces what.
* `SlotMachine.Disciplined` says two things. No `Start` is accepted while a JVM is attached, which can only be
  a JVM that has timed out. The exit watcher does not run while a closed abort channel has not yet woken its
  goroutine; this is weaker than asking every abort to arrive before the process exits.
* An instance that dies takes its JVMs with it, instance names are unique, and nobody removes a held owner
  file by hand.
* In runs of the audit log the newest file is kept; where pages are concerned, months do not go back
  (`AuditLog.Forward`), so that a restart happens in the month of the newest file.

Of these the code does not enforce the second and the third, and each is shown to be needed: by
`LockProtocol.StealIff` with the run of `SilentHolderLosesToForce`, by `SlotRuns.GuardIsSafeIff` with
`StartAfterTimeoutLosesALock`, and by `SlotRuns.WatchExitIsSafeIff` with `LateAbortReportsRunning`.

## What the proofs found

* A slot whose server timed out is in `error`, and `error` is startable although the JVM still runs. The lock
  lets such a start through without force, because the record is the slot's own and fresh
  (`Fleet.TimedOutSlotMayReacquire`); two acquisitions then share one field, and the first JVM is attached to
  nothing (`SlotRuns.StartAfterTimeoutLosesALock`). Its watcher later releases the second start's lock, so that
  two JVMs run in one directory (`Slot.TwoJvmsInOneDirectory`).
* An abort that wakes its goroutine after the exit watcher has run puts the slot in `running` with nothing
  mounted (`SlotRuns.WatchExitIsSafeIff`, and from a new slot `SlotRuns.LateAbortReportsRunning`).
* A stop after that leaves the slot in `stopping` for good (`SlotRuns.StopAfterLateAbortAbandons`,
  `SlotRuns.AbandonedForGood`).
* A server that was told to stop and exits normally or by a signal lands in `idle` exactly when nobody but the
  exit watcher has read the exit channel (`SlotRuns.LandsInIdleIff`). The stop goroutine reads the same channel,
  so a clean stop may end in `crashed` (`SlotRuns.CleanStopMayReportCrash`).
* A first successful probe after the startup budget publishes `running` and at once `error`, and `running` to
  `error` is not an edge of the state graph (`SlotRuns.HealthPublishesAlongGraphIff`,
  `SlotRuns.LateAnswerReportsBoth`).
* A release hangs for good exactly when the heartbeat goroutine has taken its timer case by then, because the
  refresh waits for the mutex that the release keeps while it waits for the goroutine
  (`LockRelease.NeverReturnsIff`, `LockRelease.ReleaseMayHang`). The exit watcher releases under the slot's mutex,
  so the slot hangs with it.
* Patching rewrites all line ends as LF. An untouched line scans back the same exactly when it does not end in a
  second CR (`Properties.LineSurvivesIff`, `Properties.SecondCRIsLost`), the bytes of a file that needs no patch
  stay exactly when its last line is ended and no line is ended by CR LF (`Properties.BytesSurviveIff`), and an
  empty file patched with nothing gains an empty line (`Properties.UntouchedLinesSurvive`).
* The RCON readers of client and server agree exactly on lengths from 10 to 4096 and before a whole length word
  has arrived (`Rcon.ReadersAgreeIff`), and the two packet builders of the status protocol exactly on ids below
  0x80 (`Slp.BuildersAgreeIff`).
* `Tail` and `Recent` agree exactly for positive counts and for buffers that nothing has been put into
  (`Ring.BuffersAgreeIff`).
* Every call of a session that is not overlong is sure of its answer exactly until a command has stopped the
  server (`Rcon.SessionAnswersInOrderIff`).
* Audit ids survive a restart exactly when the newest non-empty file does (`AuditLog.ReopenKeepsCounterIff`);
  otherwise one is given twice (`AuditLog.DeletedFileRepeatsAnId`).
* The federation merge depends on the order of the peers exactly when two of them lead with different servers
  for an id that no peer knows fresher and that this instance knows older or not at all
  (`Federation.PeerOrderIsInvisibleIff`, `Federation.TiedPeersDisagree`).
* A restore refuses more than names that lead outside: also harmless ones that begin with two dots, such as
  `..world`, and everything where the directory is given as the root or the current one (`Restore.RefusedIff`).
  So a legal tree may have a backup that cannot be restored (`Restore.RestoreSucceedsIff`,
  `Restore.DottedWorldIsLost`).

Where code and documentation disagree, the model follows the code. The comments on `Query.Cursor` and `List`
(`internal/audit/audit.go:118-125`) speak of newer entries, of the newest returned id and of falling back to
files; the code returns older entries, the oldest returned id and reads the ring only. A comment in `Read`
(`internal/lock/owner.go:55-56`) says that a garbled owner file counts as unowned; the code returns an error.

## Model

| member | source | states |
|---|---|---|
| `Lock.AcquireSucceedsIff` | internal/lock/acquire.go:54-92 | a claim succeeds if and only if the record is absent, is stale and forced, or is the claimant's own and fresh; force never takes a fresh record of another claimant; the record written names the claimant with one stamp for both times |
| `Lock.AcquireRefusals` | internal/lock/acquire.go:60-82 | each refusal by the record's fields and age: older than 60 s and not forced, fresh under another slot of the same instance, or fresh under another instance |
| `Lock.TryAcquire` | internal/lock/acquire.go:54-106 | the file afterwards is the new record, held with a live heartbeat, or is untouched and the error is the one the case calls for, an unparseable file included |
| `Lock.Held.Refresh` | internal/lock/acquire.go:111-116 | only the heartbeat changes, and the file is the holder's record word for word, whatever it held |
| `Lock.Held.Release` | internal/lock/acquire.go:120-129 | when it returns, the heartbeat has stopped and the file is gone; calling it again is harmless |
| `LockRelease.NeverReturnsIff` | internal/lock/acquire.go:120-155 | once a release has the mutex, no continuation lets it return if and only if the heartbeat goroutine has left its select for a refresh, which needs that mutex |
| `LockRelease.StuckForGood` | internal/lock/acquire.go:111-129 | in that state nothing that either can do changes it |
| `LockRelease.ReleaseMayHang` | internal/lock/acquire.go:138-155 | it is reached from a lock just held, by a tick before the release takes the mutex and by one after the cancel |
| `LockProtocol.MutualExclusion` | internal/lock/acquire.go:19-129 | in every state of every run, forced acquisitions, skewed clocks and dying instances included, no two claimants hold one directory, and a held directory's file is exactly its holder's record |
| `LockProtocol.StepKeepsInv` | internal/lock/acquire.go:54-129 | every operation, tick and death keeps that every lock in hand is on disk under its holder's name |
| `LockProtocol.ClaimedOnlyWhenUnheld` | internal/lock/acquire.go:59-82 | under timeliness a claim by somebody else succeeds only on a directory that nobody holds |
| `LockProtocol.StealIff` | internal/lock/acquire.go:66-76 | on a held directory an attempt by another claimant leaves two holders if and only if it is forced and reads the heartbeat as older than the threshold |
| `LockProtocol.SilentHolderLosesToForce` | internal/lock/acquire.go:66-76 | three enabled operations from an empty directory, with no skew, that end with two holders: a claim, a tick past the threshold without a refresh, and a forced claim by anybody else |
| `LockProtocol.ReleaseFrees` | internal/lock/acquire.go:120-129 | after a release the record is gone, the holder holds nothing there, and any claim succeeds without force |
| `LockProtocol.RefreshRenews` | internal/lock/acquire.go:111-116 | after a refresh the holder's record stands with the new heartbeat, and no other claimant gets it, forced or not, on a clock up to 60 s later |
| `LockProtocol.AbandonedBecomesStale` | internal/lock/owner.go:65-70 | a record unwritten for more than the threshold plus the skew is stale to every reader |
| `LockProtocol.DeadHolderWritesNothing` | internal/lock/acquire.go:111-129 | in every run, from the holder's death on nobody holds the directory or writes its file until a claim on it succeeds |
| `LockProtocol.DeadHolderIsStaleForEveryone` | internal/lock/owner.go:21-25 | in every run, from the holder's death on and until a claim on the directory succeeds, the dead holder's record stays, and every instance, a restarted one of the same name included, classifies it stale once more than 60 s plus the skew has passed |
| `Process.ReasonOfExit` | internal/process/process.go:164-186 | an exit is normal if and only if its code is 0, killed if and only if a signal ended it, and crashed otherwise |
| `Process.OnlyTheFirstReaderLearns` | internal/process/process.go:198-200 | of any number of reads of the exit channel exactly the first gets the real reason; all others get the zero value |
| `Process.Process.WaitAndPublish` | internal/process/process.go:164-201 | the exit is recorded and the same reason put on the channel: normal if and only if the exit code is 0, killed if and only if a signal ended the process, crashed for every other code and for a failed wait |
| `Process.Process.Receive` | internal/process/process.go:105-107 | a read takes the value if it is there, the zero value otherwise, and leaves the channel drained; the recorded exit does not change |
| `SlotMachine.StepKeepsInv` | internal/slot/slot.go:189-444 | every step keeps: server, process and lock are set together exactly in starting, running, stopping and the timed-out error; stopping implies the flag; at most one abort is under way, to the goroutine of the attached process |
| `SlotMachine.StepFollowsGraph` | internal/slot/state.go:12-43 | every step stays or follows an edge of the state graph, and error leads to crashed only from a timeout |
| `SlotRuns.CallsFollowGraph` | internal/slot/state.go:31-43 | a start is accepted in exactly the states with an edge to mounting, a stop in exactly those with an edge to stopping |
| `SlotRuns.CallsLand` | internal/slot/slot.go:189-444 | for every call and every wake-up of a start or stop goroutine, the fields it changes, to what, and that all others stay; that an expired grace and a startup timeout have the process terminated |
| `SlotRuns.ExitLands` | internal/slot/slot.go:724-766 | from every state an exit can meet, nothing stays attached, and the slot is idle without an error after a normal exit heard while stopping, idle with `killed_after_grace` after a kill heard while stopping, and crashed with `process_exited_nonzero` in every other case |
| `SlotRuns.HealthLands` | internal/slot/slot.go:786-831 | an answer before the deadline takes a starting slot to running and publishes just that, silence past it times it out, and in every other case nothing changes or is published |
| `SlotRuns.EveryStateIsGood` | internal/slot/slot.go:189-834 | both hold in every state of every run of one slot |
| `SlotRuns.LockConservation` | internal/slot/slot.go:253-277 | over every run, acquisitions minus releases is 1 exactly while the slot has a lock, pending or attached, and 0 otherwise, although `failMount` only clears the field |
| `SlotRuns.AcquiresOnlyWhenFree` | internal/slot/slot.go:253-259 | in every run a start acquires only when the slot has no lock |
| `SlotRuns.GuardIsSafeIff` | internal/slot/state.go:32-38 | accepting a start keeps the slot consistent if and only if no process is attached, and one is attached in a startable state if and only if the slot timed out |
| `SlotRuns.StartAfterTimeoutLosesALock` | internal/slot/slot.go:813-831 | the concrete script the code can follow that ends with two acquisitions behind one lock field and the first JVM orphaned |
| `SlotRuns.WatchExitIsSafeIff` | internal/slot/slot.go:405-417 | handling an exit is safe if and only if no closed abort is still on its way; otherwise that goroutine goes on to report running with nothing attached |
| `SlotRuns.LateAbortReportsRunning` | internal/slot/slot.go:405-417 | the script from a new slot, each step of which the code can take, that ends in running with no process and no lock |
| `SlotRuns.StopAfterLateAbortAbandons` | internal/slot/slot.go:382-401 | the same script followed by a stop ends in stopping with no process and no goroutine at work |
| `SlotRuns.AbandonedForGood` | internal/slot/slot.go:368-444 | no sequence of calls and wake-ups, the run rules kept or not, gets such a slot out of stopping |
| `SlotRuns.LandsInIdleIff` | internal/slot/slot.go:715-766 | over every stretch between an exit and the watcher's waking: the slot lands in idle if and only if it is still stopping, the exit was normal or by signal, and nobody else has read the channel |
| `SlotRuns.ExitedServerLands` | internal/slot/slot.go:715-766 | over every stretch from the process's end to the watcher's waking, in terms of how it ended: idle without an error if and only if still stopping, code 0 and unread by others, idle with `killed_after_grace` likewise for a signal, else crashed |
| `SlotRuns.CleanStopMayReportCrash` | internal/slot/slot.go:402-404 | the script from a new slot in which a requested stop with exit code 0 ends in crashed, because the stop goroutine read the exit channel first |
| `SlotRuns.StillReadable` | internal/slot/slot.go:402-423 | until the watcher runs, the process stays attached and its channel stays readable, holding the real reason unless another goroutine took it |
| `SlotRuns.HealthPublishesAlongGraphIff` | internal/slot/slot.go:786-831 | what a health round publishes follows the graph if and only if it is not a first success past the budget; the state afterwards is the last one published |
| `SlotRuns.LateAnswerReportsBoth` | internal/slot/slot.go:810-823 | the script from a new slot whose last health round publishes running and then error |
| `Slot.Slot.constructor` | internal/slot/slot.go:88-98 | a new slot is idle with nothing attached |
| `Slot.Slot.Transition` | internal/slot/slot.go:157-178 | an error given replaces the last one; going idle without one clears it |
| `Slot.Slot.FailMount` | internal/slot/slot.go:318-329 | error state with the code and nothing attached |
| `Slot.Slot.Start` | internal/slot/slot.go:189-315 | succeeds exactly from a startable state with nothing failing on the way; then slot, fresh process, held lock and owner file agree; any failure leaves the slot in error with the right code, and the owner file absent if the lock had been acquired and untouched if not |
| `Slot.Slot.Stop` | internal/slot/slot.go:368-426 | refused and without effect outside running and starting; otherwise stopping, with the flag and a fresh open abort channel |
| `Slot.Slot.AbortStop` | internal/slot/slot.go:435-444 | closes the abort channel once, and only while stopping; the state does not change yet |
| `Slot.Slot.AbortWakes` | internal/slot/slot.go:405-417 | always reports running; clears the stop bookkeeping only if still stopping |
| `Slot.Slot.WatchExit` | internal/slot/slot.go:715-766 | the heartbeat stops, the owner file goes, everything is detached; idle only when stopping and the channel held a normal exit or a kill, with the error of the case, and crashed otherwise |
| `Slot.Slot.Health` | internal/slot/slot.go:786-831 | running after an answer in time, error past the deadline, unchanged otherwise; and that a kill is asked for exactly on a timeout with a process attached |
| `Slot.TimeoutThenStart` | internal/slot/slot.go:813-831 | on the slot object: after a timeout a second start succeeds without force while the first JVM has not exited, and process and lock are the second start's |
| `Slot.TwoJvmsInOneDirectory` | internal/slot/slot.go:715-742 | the first JVM's watcher then releases the second start's lock and detaches the second JVM, and another slot's unforced start succeeds: two running JVMs in one directory, the owner file naming the last |
| `Fleet.OneJvmPerDirectory` | internal/slot/slot.go:253-295 | in every state of every run of any number of instances and slots, each directory has at most one attached JVM and its owner file names the slot that has it |
| `Fleet.StepKeepsInv` | internal/slot/slot.go:722-742 | every step keeps the lock protocol's invariant, every slot's invariant, and that the protocol's holders are exactly the slots' locks |
| `Fleet.AcquirersHoldNothing` | internal/slot/slot.go:253-259 | a slot about to acquire holds no lock on any directory |
| `Fleet.HeartbeatRenews` | internal/lock/acquire.go:138-155 | the heartbeat of a slot gives its own directory's record the new time and changes nothing else in it |
| `Fleet.TimedOutSlotMayReacquire` | internal/slot/state.go:32-38 | from any good state, a start on a timed-out slot that still has its JVM is let through by the lock without force |
| `Properties.EveryLineIsEither` | internal/serverid/properties.go:37-55 | every line is of one of two kinds, by its characters: blank, a comment or without an unescaped separator, or blanks, key, blanks, separator, blanks, value; the parser yields nothing for exactly the first and these parts for the second |
| `Properties.AssignmentParses` | internal/serverid/properties.go:42-55 | and whatever line is made of such parts, it yields them |
| `Properties.IgnoredLinesAreKept` | internal/serverid/properties_writer.go:38-57 | a blank line, comment or line without a separator contributes nothing to what is read, and after every patch it stands at its old place verbatim |
| `Properties.AssignmentsAreRead` | internal/serverid/properties.go:53-55 | of the lines that assign a key the last is read, with every use of blanks and either separator; a patch of the key turns it into key, same separator and new value |
| `Properties.ParsesBackIff` | internal/serverid/properties.go:37-55 | a written assignment reads back as its key, separator and value if and only if key and value are well formed |
| `Properties.LinesOfJoin` | internal/serverid/properties_writer.go:78 | scanning joined lines gives the same lines, each without one final CR |
| `Properties.LineSurvivesIff` | internal/serverid/properties_writer.go:38-67 | in any file, an untouched line, as scanned, scans back the same after the patch if and only if it does not end in a CR |
| `Properties.BytesSurviveIff` | internal/serverid/properties_writer.go:34-78 | rewriting a file with nothing to patch gives the same bytes if and only if its last line is ended and no line is ended by CR LF |
| `Properties.SecondCRIsLost` | internal/serverid/properties_writer.go:38-78 | for every assignment ended by CR CR LF, the rewritten file reads back with a shorter value |
| `Properties.UntouchedLinesSurvive` | internal/serverid/properties_writer.go:34-78 | every comment, blank line and assignment to another key is at its old place verbatim; patched lines keep key and separator and carry the new value; the missing keys follow |
| `Properties.ReadAfterPatch` | internal/serverid/properties_writer.go:26-78 | reading the patched file gives the old map overridden by the patch, duplicate keys and both separators included |
| `Properties.AppendOrderIsIrrelevant` | internal/serverid/properties_writer.go:72-76 | the order in which a map yields the appended keys does not change what is read |
| `Properties.PatchesCompose` | internal/serverid/properties_writer.go:26-78 | patching with p and then q reads like patching with p overridden by q |
| `Properties.PatchIsIdempotent` | internal/serverid/properties_writer.go:26-78 | patching again with the same patch appends nothing and gives the same text to the byte |
| `Properties.FindSeparator` | internal/serverid/properties.go:42-49 | the loop finds the first unescaped separator or -1 |
| `Properties.PropertiesFile.ReadProperties` | internal/serverid/properties.go:27-61 | the map of the text, later duplicates winning; nothing for an absent file |
| `Properties.PropertiesFile.PatchProperties` | internal/serverid/properties_writer.go:26-99 | the file becomes the patched text for some order of the keys not yet in it; an absent file is an error and stays absent |
| `Wire.Stream.ReadFull` | internal/rcon/rcon.go:181 | all the bytes asked for, with the rest kept, or an error with everything consumed |
| `Wire.LittleEndian` | internal/rcon/rcon.go:162-164 | the four bytes of a word, least significant first, in both directions |
| `Wire.TwosComplement` | internal/slp/slp.go:148 | conversion between int32 and uint32 keeps the number modulo 2 to the 32, and is its own inverse |
| `Rcon.PacketLayout` | internal/rcon/rcon.go:157-169 | the bytes of a packet as the Source RCON protocol lays them out: size of the rest, id, type, payload and two NULs |
| `Rcon.ReadsBackIff` | internal/rcon/rcon.go:157-197 | the client reads back exactly the packet and leaves exactly the bytes after it if and only if the payload has no NUL and at most 4086 bytes; over 4086 it is refused, with a NUL it is cut there |
| `Rcon.ServerReadsBack` | cmd/fake-mc-server/main.go:298-319 | the server reads a packet of any size back, its payload cut at the first NUL, and leaves what follows |
| `Rcon.ReadersAgreeIff` | internal/rcon/rcon.go:171-179 | client and server readers agree on a byte sequence if and only if it has no whole length word or a length from 10 to 4096 |
| `Rcon.WritePacket` | internal/rcon/rcon.go:157-169 | the buffer filled in place is the packet's encoding, appended to the stream |
| `Rcon.CutAtNul` | internal/rcon/rcon.go:188-196 | the payload is the part before the first NUL, all of it when there is none |
| `Rcon.ReadPacket` | internal/rcon/rcon.go:171-197 | result and bytes left are those of the decoder, with and without the client's length check, a body too short for its header included; a short read consumes everything |
| `Rcon.IdsStayPositive` | internal/rcon/rcon.go:126-134 | request ids lie in 1 to 2^31-1, differ from their predecessor, and go back to 1 exactly after 2^31-1 |
| `Rcon.AuthenticatesIff` | internal/rcon/rcon.go:136-153 | login succeeds if and only if the password, cut at its first NUL, is the server's; otherwise it fails with the authentication error and the server hangs up |
| `Rcon.CommandOnTheWire` | cmd/fake-mc-server/main.go:247-296 | the bytes of a command make the server answer with one packet of the same id that the client reads back, whatever the command |
| `Rcon.CmdAnswers` | internal/rcon/rcon.go:86-113 | on an authenticated connection to a server that is up, a call returns the server's answer to the command and only an overlong one is refused; the server is told to stop exactly by "stop" |
| `Rcon.DownServerIsSilent` | cmd/fake-mc-server/main.go:72-84 | once the server process has gone down, every call that sends anything gets a read error, an overlong one its refusal |
| `Rcon.SessionAnswersInOrderIff` | internal/rcon/rcon.go:86-113 | for every list of commands and every starting id, so across the wrap too: the k-th call is sure to return the answer to the k-th command, whenever a stopped server goes down, if and only if no earlier command has stopped it; an overlong command is refused in any case |
| `Rcon.CutsDoNotMatter` | cmd/fake-mc-server/main.go:247-273 | wherever the network cuts the stream, serving what has arrived and then the rest gives the session and the answers of serving it all at once |
| `Rcon.PasswordComesFirstIff` | cmd/fake-mc-server/main.go:256-268 | over any bytes, a session is authenticated if and only if its first login or command is a login with the right password; otherwise no command takes effect and nothing but a refusal is sent |
| `Rcon.OtherPackets` | cmd/fake-mc-server/main.go:256-271 | packets of other types are ignored, a wrong password is refused with id -1 and ends the session, a command before the login ends it without an answer |
| `Rcon.AnswersAre` | cmd/fake-mc-server/main.go:275-296 | the texts of the answers: two prefixes and three commands that are told by name, every other command echoed |
| `Rcon.FakeServer.ServeRcon` | cmd/fake-mc-server/main.go:247-273 | the loop answers every complete packet in order and leaves an incomplete one unread |
| `Rcon.FakeServer.GoDown` | cmd/fake-mc-server/main.go:72-84 | the process ends only after a stop, and the connection with it |
| `Rcon.FakeServer.HandlePacket` | cmd/fake-mc-server/main.go:256-271 | login, command and other packets have the stated effect on the session and the stated reply |
| `Rcon.Client.TakeId` | internal/rcon/rcon.go:126-134 | the counter becomes the id returned, wrapping to 1 |
| `Rcon.Client.Cmd` | internal/rcon/rcon.go:86-113 | while the server is up the call returns the answer to this very command and leaves the connection ready for the next; when it is down, the read error |
| `VarInt.EncodingIsLeb` | internal/slp/slp.go:146-156 | the encoding is in LEB128 form and its groups of seven bits, least significant first, make up the 32-bit pattern |
| `VarInt.DecodingIsLeb` | internal/slp/slp.go:168-186 | decoding any bytes reads the LEB128 number of at most five bytes at their front, modulo 2 to the 32, and fails exactly when there is none, as too long when five bytes are there |
| `VarInt.RoundTrip` | internal/slp/slp.go:146-186 | every int32 followed by any bytes decodes to itself, consuming exactly its 1 to 5 bytes |
| `VarInt.EncodingIsShortest` | internal/slp/slp.go:146-156 | nothing that decodes to a value is shorter than the encoding of that value |
| `VarInt.BitsAreArithmetic` | internal/slp/slp.go:150-153 | the code's masks, shifts and ors on 32-bit words are the arithmetic the model uses, the bits lost in the fifth group included |
| `VarInt.WriteVarInt` | internal/slp/slp.go:146-156 | the loop yields the encoding of its argument's 32 bits |
| `VarInt.ReadVarInt` | internal/slp/slp.go:168-186 | value, failure and bytes taken are the decoder's, on every byte sequence |
| `VarInt.ByteReader.NextVarInt` | internal/slp/slp.go:193-211 | same value, failure and bytes taken as `ReadVarInt` on every byte sequence |
| `Slp.BuildersAgreeIff` | cmd/fake-mc-server/main.go:182-188 | client and server build the same packet if and only if the id is below 0x80 |
| `Slp.FrameReadsBackIff` | cmd/fake-mc-server/main.go:167-180 | a framed body reads back, with what follows untouched, if and only if it is within the size limit |
| `Slp.FrameOutcomes` | cmd/fake-mc-server/main.go:167-180 | for every length and any bytes after it: implausible below 0 and above 1048576, short, or the body and the rest |
| `Slp.FramesReadBack` | cmd/fake-mc-server/main.go:167-188 | any list of packets written back to back reads back as the same list |
| `Slp.StatusReadsBack` | internal/slp/slp.go:83-108 | the client extracts exactly the text that the server's `writeString` encoded, whatever follows on the connection |
| `Slp.StatusOutcomes` | internal/slp/slp.go:93-108 | for every packet id, text length and bytes after them: which error, or the text |
| `Slp.HandshakeReadsBack` | internal/slp/slp.go:67-81 | the handshake read back: packet 0, version -1, the host, the port high byte first, next state 1 |
| `Slp.ExchangeDeliversStatus` | cmd/fake-mc-server/main.go:126-154 | the server frames the client's handshake and request, and the client gets the status text back unchanged |
| `Slp.ReadPacket` | cmd/fake-mc-server/main.go:167-180 | body and rest, or the error, are those of the frame decoder |
| `Slp.BuildPacket` | internal/slp/slp.go:137-144 | the loop yields the frame of the id followed by the concatenated parts |
| `Slp.ReadStatus` | internal/slp/slp.go:83-108 | the parse of a response on a connection is the value function, a negative length's panics included |
| `Ring.TailIsSuffix` | internal/process/ringbuf.go:49-71 | the answer is the last min(n, capacity, pushes) lines in order |
| `Ring.BuffersAgreeIff` | internal/logtail/tailer.go:64-74 | after any pushes, `Tail` and `Recent` give the same answer if and only if the count is positive or nothing was pushed |
| `Ring.PushKeepsLayout` | internal/process/ringbuf.go:39-48 | writing at the head and advancing it keeps the array holding the latest lines in circular order |
| `Ring.RingBuffer.Push` | internal/process/ringbuf.go:39-48 | the buffer represents the lines pushed so far followed by the new one |
| `Ring.RingBuffer.Tail` | internal/process/ringbuf.go:51-71 | the circular copy is the tail of everything ever pushed |
| `Ring.History.Emit` | internal/logtail/tailer.go:281-291 | the shifting array represents the entries emitted so far followed by the new one |
| `Ring.History.Recent` | internal/logtail/tailer.go:65-74 | the copy is the end of everything ever emitted; a count of zero or less asks for all that is kept |
| `AuditPages.PageContents` | internal/audit/audit.go:144-161 | a page is newest first and matching, and whatever matching entry it leaves out is older than all of it; an empty page means nothing matches |
| `AuditPages.PageByFields` | internal/audit/audit.go:127-183 | by the fields of entry and query: every entry of a page is before the cursor, in the time window and of the actor and kind asked for; every entry of the ring that is so is on the page or older than all of it; and only a page that is full, 200 by default and 1000 at most, leaves any out |
| `AuditPages.EmptyQueryListsAll` | internal/audit/audit.go:126-167 | a query that asks for nothing lists the ring backwards, up to the page size |
| `AuditPages.DeliveredOnceInOrder` | internal/audit/audit.go:126-167 | following the cursor while the ring moves delivers strictly decreasing ids, so nothing twice, and only entries of the first ring that match |
| `AuditPages.NothingSkipped` | internal/audit/audit.go:126-167 | when the client meets an empty page, every entry that matched at the first request and is still in the ring has been delivered, whatever was appended in between, for every filter and limit |
| `AuditPages.PagingEnds` | internal/audit/audit.go:145-165 | following the cursor reaches an empty page within a bound that appends cannot move |
| `AuditPages.QuietRingIsDeliveredWhole` | internal/audit/audit.go:126-167 | on an unchanged ring the pages put together are exactly all matching entries, newest first |
| `AuditPages.IdZeroRestarts` | internal/audit/audit.go:145-153 | an entry numbered 0 would make the first page come again, so ids must start at 1 |
| `AuditPages.EvolvesTransitively` | internal/audit/audit.go:102-109 | what appends and losses of old entries do to the ring over two stretches is again such a change |
| `AuditLog.DropLineEnd` | internal/audit/audit.go:295-298 | a final CR or LF does not change the lines of a text |
| `AuditLog.LastLine` | internal/audit/audit.go:302-306 | what stands after the last LF, unless empty or ended by CR, is one more line, verbatim |
| `AuditLog.SplitLinesLast` | internal/audit/audit.go:291-310 | for every text, the backward scan gives the last n of its non-blank lines without trailing CRs |
| `AuditLog.ScanLastLine` | internal/audit/audit.go:250-261 | the scan for the highest id looks at the same line that the backfill ends with |
| `AuditLog.BackfillReadsBack` | internal/audit/audit.go:270-289 | the last entries written to a file are what is read back from it |
| `AuditLog.LastIdReadsBack` | internal/audit/audit.go:250-265 | the id read from a file is that of the last entry written to it |
| `AuditLog.LastIdOfLine` | internal/audit/audit.go:259-265 | a last line that does not decode counts as id 0, one that does as its id, whatever stands before |
| `AuditLog.GarbageIsSkipped` | internal/audit/audit.go:283-288 | lines that do not decode are skipped and the others kept in order |
| `AuditLog.ReopenKeepsCounterIff` | internal/audit/audit.go:69-75 | a restart restores the counter if and only if the newest file is still there, and never raises it |
| `AuditLog.DeletedFileRepeatsAnId` | internal/audit/audit.go:69-75 | the run from an empty directory, an append, the deletion of its file, a restart and an append, that gives the same id twice |
| `AuditLog.StepKeepsInv` | internal/audit/audit.go:85-109 | appends, restarts and deletions of older files keep every file's and the ring's ids increasing and below the counter |
| `AuditLog.CounterFollowsAppends` | internal/audit/audit.go:69-100 | over every run the counter moves by one with each append and never otherwise, restarts included; after a restart the ring is the last 1000 entries of the current file |
| `AuditLog.IdsNeverRepeat` | internal/audit/audit.go:69-100 | of any two appends of a run, however many restarts lie between them, the later gets the greater id |
| `AuditLog.StepEvolvesRing` | internal/audit/audit.go:85-109 | each append, restart in the newest month and deletion only adds newer entries to the ring and drops oldest ones, and keeps that the ring ends with what a restart would read |
| `AuditLog.RunGivesHistory` | internal/audit/audit.go:58-109 | the rings that requests meet at any times of a run, restarts between them included, are a history as the pagination needs it |
| `AuditLog.ClientOfARunMissesNothing` | internal/audit/audit.go:126-167 | over every run of the log, a client that pages to the end gets matching entries of its first request, newest first and once each, and every one of them that is still in the ring at its last |
| `AuditLog.Logger.constructor` | internal/audit/audit.go:58-80 | creating a logger on a directory is the restart step of the runs, and leaves at most 1000 entries in the ring |
| `AuditLog.Logger.ScanMaxId` | internal/audit/audit.go:222-268 | an upper bound of every file's last id that some file attains, or 0 |
| `AuditLog.Logger.BackfillRing` | internal/audit/audit.go:270-289 | the ring becomes the decodable ones of the file's last lines, in order, at most 1000 |
| `AuditLog.Logger.Append` | internal/audit/audit.go:85-109 | the append step of the runs: the id returned is the counter's, and files, counter and ring change as the step says |
| `AuditLog.Logger.List` | internal/audit/audit.go:126-167 | the loop's page and cursor are those of the page function, and every entry listed is in the ring, before the cursor, in the time window and of the actor and kind asked for |
| `Metrics.EscapesAre` | internal/metrics/registry.go:162-167 | backslash, quote and newline become backslash and themselves or `n`, as in the text exposition format; every other character stays |
| `Metrics.PassesAreOneEscape` | internal/metrics/registry.go:162-167 | the three replacement passes equal one escape per character: none escapes what an earlier one put in |
| `Metrics.UnescapeInverts` | internal/metrics/registry.go:162-167 | unescaping undoes escaping for every value |
| `Metrics.QuoteEndsValue` | internal/metrics/registry.go:157 | a quote ends an escaped value unambiguously: equal texts have equal values and equal rests |
| `Metrics.LabelKeyIsInjective` | internal/metrics/registry.go:151-160 | for fixed names, equal keys come only from equal value lists |
| `Metrics.KeyUnfolds` | internal/metrics/registry.go:151-160 | the key's text: name, equals sign, quoted escaped value, and a comma before the next |
| `Metrics.SeriesRefinesLabels` | internal/metrics/registry.go:131-148 | after any run of recordings, looking a value list up through its key gives the value recorded for that very list, or nothing |
| `Metrics.LastRecording` | internal/metrics/registry.go:131-148 | a set is what is shown next, an increment adds to what was or to zero, other label values stay, and a wrong number of labels changes nothing |
| `Metrics.EveryKeyIsALabelKey` | internal/metrics/registry.go:131-148 | every key in the map belongs to some recorded value list |
| `Metrics.CounterIsSum` | internal/metrics/registry.go:140-148 | a counter shows the sum of its own increments and is absent exactly when it never had one |
| `Metrics.Metric.Set` | internal/metrics/registry.go:131-138 | the series map stands for the history with this recording; a wrong number of labels changes nothing |
| `Metrics.Metric.Add` | internal/metrics/registry.go:140-148 | the same for an increment, starting from zero |
| `Metrics.Metric.Sample` | internal/metrics/registry.go:121-129 | what a scrape shows for a value list is its value in the history |
| `Metrics.KeyOf` | internal/metrics/registry.go:151-160 | the loop over pairs and the join give the key |
| `PubSub.StepKeepsInv` | internal/events/bus.go:60-107 | every operation keeps: registered channels exist and are open, unregistered ones were closed exactly once, nothing was sent after a close, and no buffer is over its capacity |
| `PubSub.TakenWhatMetRoom` | internal/events/bus.go:82-94 | over every run, a channel has met exactly what was published while it was registered, and has taken, in order, exactly those events at whose publish fewer than its capacity were waiting |
| `PubSub.AcceptedIsSubsequence` | internal/events/bus.go:88-93 | what met room is an in-order subsequence of what was offered, and all of it exactly when everything met room |
| `PubSub.DeliveryIsFaithful` | internal/events/bus.go:60-107 | in every run, received plus queued is, in order, exactly the events published while subscribed that met a queue shorter than the capacity; nothing is missing if and only if every publish met room; no closed channel is sent to, none is closed twice, and a channel is closed exactly when it is not registered |
| `PubSub.ShutForGood` | internal/events/bus.go:63-67 | after the bus has been closed, nobody is registered with it in any later state |
| `PubSub.Bus.SubscribeNew` | internal/events/bus.go:60-80 | a fresh number with an empty buffer of 32, registered; after closing, a channel that is already closed and never registered |
| `PubSub.Bus.CancelSub` | internal/events/bus.go:72-79 | closes and forgets the channel if it is registered, else does nothing |
| `PubSub.Bus.PublishEvent` | internal/events/bus.go:82-94 | the event is offered to every registered channel once, in whatever order the map gives, and to no other |
| `PubSub.Bus.Close` | internal/events/bus.go:96-107 | every registered channel is closed once and none stays; a second call does nothing |
| `PubSub.Broadcaster.SubscribeNew` | internal/logtail/broadcaster.go:27-36 | a new channel with the buffer asked for, at least 1 |
| `PubSub.Broadcaster.Unsubscribe` | internal/logtail/broadcaster.go:41-48 | closes and forgets a registered channel, safe to repeat |
| `PubSub.Broadcaster.PublishEvent` | internal/logtail/broadcaster.go:52-61 | every registered channel is offered the entry once, no other |
| `PubSub.Broadcaster.Close` | internal/logtail/broadcaster.go:64-71 | every registered channel is closed once and none stays |
| `Federation.FreshestHeartbeatWins` | internal/api/handlers_federation.go:80-114 | in ids and heartbeats alone: the ids are those of this instance and the answers, no source has a later heartbeat than the merged entry, this instance's gives way only to a later one or when it has none, and everything else comes from an answer, its discovery root cleared |
| `Federation.MergeIsBest` | internal/api/handlers_federation.go:80-114 | the merge has exactly the union of ids; each entry is this instance's or a peer's offer, none offered is fresher, and this instance's wins every tie |
| `Federation.MergeIsChampion` | internal/api/handlers_federation.go:88-112 | what the merge has for an id is the first of the freshest offers, unless this instance's own server is as fresh |
| `Federation.MergeIgnoresOrderIff` | internal/api/handlers_federation.go:88-114 | for every catalogue and every list of answers: all lists with the same offers merge alike if and only if no two different offers for one id are both as fresh as any and fresher than this instance's own |
| `Federation.PeerOrderIsInvisibleIff` | internal/api/handlers_federation.go:88-114 | for every catalogue and every map of answers: all orders of visiting the peers merge alike if and only if no two peers' first freshest offers for one id differ while being as fresh as any peer's and fresher than this instance's own |
| `Federation.TiedPeersDisagree` | internal/api/handlers_federation.go:88-112 | for any two different servers of one id and heartbeat offered by two peers, either order of visiting them leaves the first |
| `Federation.Discover` | internal/api/handlers_federation.go:80-114 | for whatever order the map of peers gives: that order's merge; every server in an answer is there with a heartbeat no older than the answer's, and this instance's last server of an id stays unless an answer has a later heartbeat |
| `Federation.MergeAnswer` | internal/api/handlers_federation.go:89-113 | one peer's loop continues the merge by that peer's items, the malformed ones skipped |
| `Backup.ArchivedIff` | internal/backup/backup.go:149-203 | a file or directory is in the archive, with its path and content, if and only if it is in the tree and neither it nor a directory on the way to it is excluded |
| `Backup.WalkPathsDistinct` | internal/backup/backup.go:149-203 | no path is archived twice |
| `Backup.ExcludesByNames` | internal/backup/backup.go:232-248 | the prefix and suffix tests on a path's text are tests on its first and last names: only whole names count, and `.mcsm` and `logs` shield their contents from the later rules |
| `Backup.DumpNameIff` | internal/backup/backup.go:240-243 | the dump names: anything followed by `.jfr` or `.hprof`, or `core.` followed by anything |
| `Backup.ExcludedIff` | internal/backup/backup.go:163-168 | a path is left out, by itself or with a skipped directory, if and only if it is or lies below `.mcsm/owner.json`, is in unwanted `logs`, or outside those two is in `cache` or has a dump's name anywhere on the way |
| `Paths.CleanLeadsThere` | internal/backup/backup.go:345-350 | cleaning a name preserves its meaning: from every current directory the cleaned text leads to the same place |
| `Paths.StaysBelowIff` | internal/backup/backup.go:345-349 | a relative name leads to a place below every directory it is followed from if and only if, cleaned, it does not start with `..` |
| `Restore.RefusedIff` | internal/backup/backup.go:345-354 | for every directory and every name: it is refused if and only if it is absolute, or cleaned starts with `..` or a name beginning with two dots, or the directory cleans to the root or the current directory and the name does not clean to the directory itself |
| `Restore.WritesStayBelow` | internal/backup/backup.go:345-354 | for every name of every archive that is not refused, and every current directory, what is opened lies at the server directory's place continued by real names only, so nothing is written outside |
| `Restore.RestoreOverrides` | internal/backup/backup.go:328-383 | onto any directory and for any archive, whatever its names, a restore completes if and only if no name is refused and no cleaned path is a file on one side and a directory on the other, among the archive's own entries too; then it overwrites what the archive has, makes its directories and leaves the rest alone |
| `Restore.RestoreKeepsTree` | internal/backup/backup.go:341-383 | however a restore ends, what it leaves is a directory tree |
| `Restore.UnpacksAsPacked` | internal/backup/backup.go:169-182 | a backup's entry names end in a slash for directories and only then, clean back to the paths that were walked, and are refused only for two leading dots or an unnamed directory |
| `Restore.RestoreSucceedsIff` | internal/backup/backup.go:345-383 | restoring a backup onto any directory succeeds if and only if no archived top-level name starts with two dots, nothing archived as a file is a directory there or the other way round, and the directory does not clean to the root or the current directory, unless the backup is empty |
| `Restore.DottedWorldIsLost` | internal/backup/backup.go:346-349 | a tree whose one file is named `..world` is backed up and cannot be restored |
| `Restore.RestoredTree` | internal/backup/backup.go:149-203 | after a completed restore onto any directory, a path holds the tree's file where that is not excluded, and otherwise the file that was there; the directories are the tree's that are not excluded beside those that were there |
| `Restore.CountsMatchRestore` | internal/backup/backup.go:196-201 | restoring into an empty directory succeeds for safe names, and brings back `FileCount` files of `BytesTotal` bytes in all |
| `Restore.BytesTotalIsSize` | internal/backup/backup.go:196-201 | the byte count is the sum of the sizes of the archive's files, each counted once |
| `Backup.Archive.Create` | internal/backup/backup.go:149-203 | the archive grows by the entries of the walk of the listing, and the two counters stay equal to the number and total size of its files |
| `Backup.Archive.VisitNode` | internal/backup/backup.go:160-203 | the same for one node, nothing for an excluded one with all below it |
| `Restore.Restore` | internal/backup/backup.go:341-369 | the loop's outcome onto any directory for any archive, its failure at the first refused name or clash included, and that it leaves a directory tree |

## Left out

Parts of the repository that are not modelled:

- HTTP routing, authentication, tokens, JSON and YAML decoding, WebSockets, Discord and downloads, which pass data between libraries; the regular expressions over log lines, configuration checks and temperature sampling, which keep no state and follow no protocol.
- Failures of files, sockets, clocks and the JSON encoder, except those named in the table; deadlines and contexts.
- `Terminate`: of its signal escalation only the reading of the exit channel matters to a slot, and only that is modelled (`internal/process/process.go:145-162`).
- The slot's RCON client, tailer, bot, probe result and timestamps; `Snapshot`; `Restart`, which is a stop followed by a start.
- `PatchProperties` runs before the lock is tried, so the properties of a server may be rewritten by an instance that then fails to get the lock; the slot model has that step only as a possible failure.
- `handleDiscoveryUnlock` may remove a held lock while its JVM runs; runs do not include it.
- Two instances whose reads and writes in `TryAcquire` interleave: the code documents that race (`internal/lock/acquire.go:47-53`).
- Line-length limits of scanners; the full `java.util.Properties` syntax; `os` file modes and temporary files.
- The status client's ping, and of the status itself everything inside the JSON text.
- 64-bit wrap-around of audit ids, and rounding of counters: ids are unbounded and samples are reals.
- Two appends whose file writes overtake each other: `Append` writes outside its lock, and the model appends in order.
- `Since`, `backfill` and `readUntilEOF` of the tailer; the order of lines in the metrics output and its help texts.
- Links, modes and times in a backup; `filepath.Clean` and `filepath.Join` are modelled for the slash as separator.

Where a member says less than the code does, or in another form:

- PubSub.Bus.SubscribeNew: returns the channel's number and keeps all channels in a table, so a receiver's end is a number and not an alias of the channel; the cancel closure is `CancelSub` on that number.
- PubSub.Broadcaster.SubscribeNew: the same, with numbers for channel identity.
- Slot.Slot.Start: planning and spawning are parameters that say how they end; what others do to the slot between its guard and its attachment is modelled by the separate steps of `SlotMachine`, not inside the method.
- Rcon.Client.Cmd: the server takes its whole turn between the client's write and read, where the original waits on a socket; to a server that is down the write goes through and the read fails, where the original may fail at the write.
- Rcon.SessionAnswersInOrderIff: the server is stopped by this session only, and answers the stop itself before it goes down, for which the original leaves it 100 ms.
- AuditLog.Logger.Append: the entry's time is given, and the JSON line is an encoding with an inverse and without line ends.
- Federation.Discover: a peer's answer is a list of already typed items; decoding of unknown fields is not modelled.
- Lock.Held.Release: a call that returns; the wait for the heartbeat goroutine, which may keep it from returning, is modelled in `LockRelease`, and the runs of `LockProtocol`, `SlotRuns` and `Fleet` have a release as one step.
- Lock.TryAcquire: a file that exists but cannot be read is treated like one that does not parse.
- Metrics.CounterIsSum: over reals, so without floating-point rounding.
