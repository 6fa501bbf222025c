# Verification of the tracing, replay and debugging tools

This project models a tool set that records the plugin interface (PI) calls of a SYCL
program, replays them without the hardware, packs a recording into a portable
reproducer, prints it, and serves a debugger over the GDB Remote Serial Protocol. Each
file models one component; the code that updates state in place is modelled by classes
and loops that are proved against functions, and what the tools promise is proved about
those functions, for every input and every run.

| file | component |
|---|---|
| `Bytes`, `Decimal`, `Division`, `Wrappers` | little-endian integers, decimal names, division, optional values: used by the rest |
| `TraceFraming` | length-framed record files and their two readers |
| `ThreadNames` | naming threads by spawn position |
| `PiCalls` | one PI call: its record, its side file, its replay |
| `RecordThread` | the begin/end callback that drives the recorder of one thread |
| `RecordReplay` | recording and replay of a whole program as step systems; determinism |
| `Determinism` | exactly which recordings can be replayed; a condition on the program alone |
| `LockedRecording` | recording with the lock around the binary dump built in |
| `Handles`, `Renaming` | object handles on replay, up to renaming; the same over whole runs |
| `BinaryDump` | the double-checked lock around dumping device binaries |
| `TraceeMemory`, `Tracer` | the ptrace tracer: strings in the tracee, seccomp filter, wait statuses, worker loop |
| `Archive`, `PackMap` | the packed reproducer and the redirection of file accesses to it |
| `GdbCodec`, `GdbPackets`, `GdbXfer`, `GdbSession` | the GDB server: hex and integers, escaping and framing, chunked transfer, session |
| `PerfSummary`, `GraphDump` | the consumers: performance table and listings, the task graph |

## Main results

* **Determinism.** For every program, every record schedule and every replay schedule,
  replay never stops at an unexpected record, it never gets stuck, and each thread sees
  exactly what the thread at the same spawn position saw while recording. A program is
  any strategy: what a thread does next may depend on everything it observed, so a wrong
  answer anywhere would let the replay diverge. For finished recordings whose thread names
  fit the kernel's limit this holds if and only if no record was lost and every call is of
  a kind whose record and replay agree (`ReplayableExactly`): one lost record, or one call
  of another kind, keeps every replay from showing its thread all it saw. With the lock of
  the recorder built in, no record is lost if and only if at most one selection found the
  flag unset (`NoneLostExactly`). Which calls agree is exact call by call (`ReplayExact`),
  over all entry points of the interface, and so is the part of it that a caller can tell
  beforehand (`GuardExact`): programs that make only such calls are replayed whatever the
  plugin answered (`GuardedReplayShowsTheRecording`).
* **Handles.** Replayed handles differ from recorded ones. Whenever a replayed thread asks
  for a kernel's program, the address logged for that very query was the recorded handle
  of the program the kernel was created from, and the answer is the replayed handle of the
  same program. It is the only query for a handle of which that is true.
* **Names.** Thread names are pairwise distinct exactly when they fit in 15 characters,
  and depend on the spawn position only. Side-file names never collide.
* **Framing.** Cutting a trace file anywhere yields exactly the longest prefix of
  complete records.
* **Double-checked lock.** In every interleaving the binaries are written once, each of
  them, and of the calls that found the flag unset exactly one keeps its record.
* **Tracer.** For every run of the tracee exactly the watched system calls reach a handler,
  once, in order and with their own file name, the replacement is what the kernel reads
  afterwards, the exit code is that of the first terminating report, and a replacement for
  which there is no room makes the loop throw.
* **Reproducer.** Unpacking rebuilds the packed tree for every parents-first walk, and
  an access without ".so" goes to a copy with the contents of its own path. Parsing stays
  inside the file, whatever the output directory holds, exactly when all lengths do.
* **GDB.** Round trips of the codecs, exact conditions for framing and for whole chunked
  downloads, acknowledgements and thread enumeration over arbitrary runs.
* **Consumers.** The performance table does not depend on the order of the records, and it
  is stated exactly when every sort keeps a thread's order; the shared task graph refines
  a view in which every id lives on its own.

## Where the code departs from its intent

* `lib/plugin_record/record_handler.cpp:120-121` returns without writing a record:
  `BinaryDump.LossesExactly` says how many are lost, `BinaryDump.LossIsReachable` that it
  happens, `RecordReplay.LostRecordIsFatal` what that means.
* `lib/plugin_replay/replay.cpp:304` insists on the id of another call: replay of
  `piMemRetain` never shows what was recorded (`PiCalls.ReplayExact`, as all of the
  following that name no other result; `PiCalls.GuardExact` where the call tells).
* `lib/plugin_replay/replay.cpp:734-795` is all that replay provides. Everything is
  recorded, so a program that calls anything else, such as piEnqueueMemBufferWrite or
  piextUSMSharedAlloc, cannot be replayed. `doc/supported_apis.md` promises replay of
  piextDeviceGetNativeHandle, which the table does not have, and denies that of
  piContextCreate and piQueueCreate, which it has; the model follows the table.
* `lib/plugin_replay/replay.cpp:383-395` leaves the program of `piProgramLink` unset.
* `lib/plugin_replay/replay.cpp:517`, `:528`, `:541`, `:554`, `:621`, `:645`, `:670` and `:720`
  write the event even if none is asked for.
* `lib/plugin_replay/replay.cpp:711-723` and `:508-519` do not restore memory that a memset
  or a kernel wrote, and `lib/plugin_record/record_handler.cpp:354-356` saves the
  destination of a USM copy only for host and unregistered memory:
  `PiCalls.VisibleMemoryIsNotReplayed`.
* `lib/plugin_replay/replay.cpp:60-66` restores only the value when both pointers are
  given, and the four info queries that have no handler of their own cannot be replayed.
* `lib/plugin_replay/replay.cpp:60-66` also copies recorded addresses back when the answer
  is a handle, such as a context's devices or a kernel's context; only a kernel's program
  is looked up afresh: `Handles.RenamedExactly`. That lookup
  (`lib/plugin_replay/replay.cpp:450-452`) ignores the recorded result and the size of the
  buffer.
* `lib/plugin_record/record.cpp:93` overwrites the begin of an enclosing call:
  `RecordThread.BeginIsOwn` and `RecordThread.OwnBeginExact` say exactly which records
  keep their own, `RecordThread.OuterBeginIsLost` shows one that does not.
* `lib/utils/Tracer.cpp:128-140` takes the -1 of a failing peek for data:
  `TraceeMemory.ReadExact`.
* `src/debug_server/GDBServerProtocol.cpp:50-51` offsets upper-case digits from the wrong
  letter: `GdbCodec.PairExact` and `GdbCodec.ParseExact` say for which texts that does no
  harm.
* `src/debug_server/GDBServerProtocol.cpp:387-394` and `:433-440` send objects without
  escaping them: `GdbXfer.PlainDownloadExact` and `GdbXfer.PlainInOneRequest`.
* `src/debug_server/GDBServerProtocol.cpp:388`, `:411` and `:434` add in 64 bits without a check: `GdbXfer.SliceWraps`.
* `src/debug_server/GDBServerProtocol.cpp:406-411` compares the raw size with offsets into
  escaped data: `GdbXfer.AuxvExact` for a client that joins the text of the chunks,
  `GdbXfer.AuxvDecodedExact` and `GdbXfer.AuxvInOneRequest` for one that unescapes each.
* `src/debug_server/GDBServerProtocol.cpp:251` acknowledges a repeated QStartNoAckMode:
  `GdbSession.PlusExact`.
* `src/unpack.cpp:29-45` trusts every length in the file; a cursor that has passed the end
  is never noticed: `Archive.InBoundsExactly`.
* `src/replay.cpp:168-174` takes the first recorded path that contains the library's file
  name: `PackMap.LibraryHitIsItself` and `PackMap.SameLibraryNameIsMixedUp`.
* `src/print.cpp:226-229` sorts with a sort that is not stable: `PerfSummary.SortExact`
  says exactly when a thread's calls keep their order, `PerfSummary.TiesMayFlip` is the
  smallest case in which they need not.
* `lib/graph_dump/graph_dump.cpp:132-142` lets a task end create an event, as a node
  without an end: `GraphDump.LifeIsTimedSince`.

## Model

| member | source | states |
|---|---|---|
| Bytes.U32RoundTrip | lib/plugin_record/record_handler.cpp:22-23 | a 32-bit size field read back from its bytes is the size that was written |
| Bytes.U64RoundTrip | src/pack.cpp:94-95 | the same for the 64-bit fields of side files and archives |
| Bytes.LayoutOfU32 | lib/plugin_record/record_handler.cpp:22-23 | a size field holds the four bytes of the number, the least significant one first |
| Bytes.LayoutOfU64 | src/pack.cpp:94-95 | the eight bytes of a 64-bit field are those of its low half and then those of its high half |
| Bytes.SameBits | lib/plugin_record/record_handler.cpp:153 | a result stored without sign keeps its 32 bits, and so does its way back |
| Decimal.NoLeadingZero | lib/system_intercept/threads.cpp:33 | only zero is written with a leading zero, as "0" |
| Decimal.DecimalIsUnique | lib/system_intercept/threads.cpp:33 | every text of digits without a leading zero is the one written for its value in base ten |
| Decimal.NumberedInjective | lib/system_intercept/threads.cpp:33 | "prefix_number" determines prefix and number, although prefixes contain underscores themselves |
| TraceFraming.ReadAtOffset | lib/plugin_replay/replay.cpp:70-81 | in any file that starts with the first k + 1 records, reading where record k starts gives record k and moves to the next start |
| TraceFraming.ReadCut | src/print.cpp:55-67 | in a file cut inside record k, reading there reports the end of the file |
| TraceFraming.ReadFailsExactly | lib/plugin_replay/replay.cpp:70-76 | reading overruns exactly at a size of 2^32 - 1, and meets the end exactly where a size or a payload is cut short |
| TraceFraming.TruncatedTraceIsPrefix | src/print.cpp:50-71 | for every cut of a file of records below 2^32 - 1 bytes, what is read is exactly the longest prefix of complete records |
| TraceFraming.TraceRoundTrip | src/print.cpp:50-71 | an intact file gives back exactly the records written |
| TraceFraming.InputStream.Read | src/print.cpp:57-61 | a short read sets end-of-file and leaves the rest of the buffer alone; a full read advances |
| TraceFraming.ParseTraceFile | src/print.cpp:50-71 | the loop returns all complete records whatever the uninitialised size variable holds, unless a size of 2^32 - 1 makes the buffer empty |
| ThreadNames.FullNameInjective | lib/system_intercept/threads.cpp:29-35 | two spawn positions never have the same untruncated name |
| ThreadNames.ChildName | lib/system_intercept/threads.cpp:29-35 | the k-th child is called after its parent, an underscore and k, unless that is longer than 15 characters |
| ThreadNames.ThreadsFormTree | lib/system_intercept/threads.cpp:13-38 | after every schedule of spawns each position exists once, with all its ancestors and elder siblings, and has the name of its position |
| ThreadNames.NameIgnoresSchedule | lib/system_intercept/threads.cpp:29-35 | a position gets the same name in any two runs, whatever the interleavings |
| ThreadNames.DistinctIffFit | lib/system_intercept/threads.cpp:29-35 | the names in a spawn tree are pairwise distinct if and only if all untruncated names have at most 15 characters |
| ThreadNames.SpawnedNamesDistinctIffFit | lib/system_intercept/threads.cpp:29-48 | the same for every run of spawns from main |
| ThreadNames.ThreadTable.constructor | lib/system_intercept/threads.cpp:40-49 | the initial thread is "main" and has created nothing |
| ThreadNames.ThreadTable.PthreadCreate | lib/system_intercept/threads.cpp:16-38 | exactly one thread is added, called after its creator and the creator's counter or, if that is too long, like its creator, and that counter moves by one; while names fit, the new name differs from all others |
| PiCalls.MemNameInjective | lib/plugin_record/record_handler.cpp:222-224 | side files of different threads or events never share a name |
| PiCalls.TraceNameInjective | lib/plugin_record/record.cpp:80-81 | trace files of differently named threads never share a name |
| PiCalls.RecordHandler.Handle | lib/plugin_record/record_handler.cpp:112-456 | one frame is appended to this thread's file and the side file is written if the call saves memory; a lost race writes neither; nothing else in the directory changes |
| PiCalls.RecordHandler.Capture | lib/plugin_record/record_handler.cpp:112-394 | each entry point's handler puts exactly its own outputs into the record and saves memory exactly for maps, reads and copies into host or unregistered memory |
| PiCalls.RecordHandler.SaveMemory | lib/plugin_record/record_handler.cpp:218-237 | the side file named after thread and event holds size and bytes, and the record refers to it |
| PiCalls.ReplayExact | lib/plugin_replay/replay.cpp:49-795 | replaying any call from its own record shows the recorded outcome if and only if the call is faithful: replay provides the entry point; an enqueue asked for its event; memory that was written was saved, is invisible or held the same bytes; a link failed; an info query is wired, has a pointer, with both pointers the size already right, and its value is bytes, a failure to give another handle, or a kernel's program that was given and fits; it is not piMemRetain |
| PiCalls.OutputReplayExact | lib/plugin_replay/replay.cpp:60-320 | the part of it about counts, info queries and binary selections |
| PiCalls.MemoryReplayExact | lib/plugin_replay/replay.cpp:598-673 | the part of it about maps, reads and USM copies |
| PiCalls.CopiesAgain | lib/plugin_record/record_handler.cpp:353-377 | recorded and replayed, a copy into host memory, registered or not, shows the bytes copied, one into shared memory the old ones, one into device memory nothing; without saved memory the old bytes stay, without an event replay dies |
| PiCalls.BuffersAgain | lib/plugin_replay/replay.cpp:598-648 | recorded and replayed, maps and reads show the bytes if memory is saved and an event asked for, else replay dies |
| PiCalls.QueriesAgain | lib/plugin_replay/replay.cpp:60-66 | recorded and replayed, the five queries with a handler show the recorded bytes, or the recorded size if only that is asked for; with both pointers the size stays what it was, with none replay dies |
| PiCalls.HandleQueriesAgain | lib/plugin_replay/replay.cpp:440-455 | recorded and replayed, a query for a kernel's program shows the process's own one and any other query for a handle the recorded address |
| PiCalls.UnhandledQueriesDie | lib/plugin_replay/replay.cpp:221-232 | the four queries without a handler die on replay |
| PiCalls.CountsAgain | lib/plugin_replay/replay.cpp:83-137 | recorded and replayed, counts of platforms and devices and selected binaries are the recorded ones |
| PiCalls.ResultsAgain | lib/plugin_replay/replay.cpp:152-795 | recorded and replayed, every other call gives its result; successful creations leave an object, a link does not; piMemRetain and what replay does not provide die |
| PiCalls.WritesAgain | lib/plugin_replay/replay.cpp:508-723 | recorded and replayed, kernels and memsets leave visible memory as it was, and without an event replay dies |
| PiCalls.SeenIsTheAnswer | lib/plugin_record/record_handler.cpp:112-394 | what the program sees while recording is the plugin's answer, but for device memory |
| PiCalls.RecordCarries | lib/plugin_record/record_handler.cpp:383-394 | a record carries its own entry point, its begin and end and its result |
| PiCalls.OutputSizes | lib/plugin_record/record_handler.cpp:155-301 | a count takes four bytes of a record, a selection the eight bytes from its address on, a query its value and then eight bytes of size |
| PiCalls.ForeignRecordsDie | lib/plugin_replay/replay.cpp:49-58 | replay dies at the record of any other entry point, but piMemRetain takes only that of piMemImageGetInfo |
| PiCalls.PastTheEnd | lib/plugin_replay/replay.cpp:70-102 | at the end of the trace every call dies, except piPlatformsGet without a count, which succeeds |
| PiCalls.GuardExact | lib/plugin_replay/replay.cpp:49-795 | every answer of the plugin to a call is repeated if and only if the call is guarded, which depends on the call alone: a provided entry point other than piMemRetain and piProgramLink; an event asked for; no visible memory written that is not saved, unless by a memset of its own value; a wired query for bytes with exactly one pointer |
| PiCalls.VisibleMemoryIsNotReplayed | lib/plugin_replay/replay.cpp:508-723 | whatever differs from the old content of visible memory is not restored after a copy into shared memory, a kernel, or a memset of host memory |
| PiCalls.SelectionNeedsItsRecord | lib/plugin_replay/replay.cpp:309-320 | replay reports a selected binary only from a record of a selection, never from a read past the end |
| PiCalls.ReplayThread.EnsureTraceOpened | lib/plugin_replay/replay.cpp:24-35 | the stream is the file of the thread's own name and opening does not move the cursor |
| PiCalls.ReplayThread.Replay | lib/plugin_replay/replay.cpp:49-81 | every entry point consumes the next record of its own thread, checks the id and answers from that record |
| RecordThread.EveryCallHasItsRecord | lib/plugin_record/record.cpp:69-108 | for calls that do not nest, the k-th record is that of the k-th call with that call's own begin and end |
| RecordThread.NothingBeforeBegin | lib/plugin_record/record.cpp:95-96 | ends that come before any begin leave no record |
| RecordThread.BeginIsOwn | lib/plugin_record/record.cpp:93-107 | in every run a recorded end carries the begin that came some callbacks before it if and only if no begin follows that one, or the last that does is at the same time |
| RecordThread.NestedCallsAreRecorded | lib/plugin_record/record.cpp:69-108 | calls nested to any depth, after any callbacks, leave one record per call in the order of their ends, each with the begin of the last call made inside it |
| RecordThread.OwnBeginExact | lib/plugin_record/record.cpp:93-97 | as long as time does not run backwards, a call is recorded with its own begin if and only if every call inside it, at any depth, began at that time |
| RecordThread.OuterBeginIsLost | lib/plugin_record/record.cpp:93-97 | the record of a call around one that began later starts when the inner one did |
| RecordThread.ThreadRecorder.TpCallback | lib/plugin_record/record.cpp:69-109 | whatever callbacks arrive, the thread's file is its earlier content followed by one frame per end that has a begin before it and won its race; other files stay |
| RecordReplay.RecordingInvariant | lib/plugin_record/record_handler.cpp:19-25 | in every recording, while names are distinct, each trace file holds exactly its thread's records in order and every side file still holds its own call's bytes |
| RecordReplay.WrittenPlusLost | lib/plugin_record/record_handler.cpp:112-159 | per thread, records written plus records lost is the number of calls made |
| RecordReplay.RecordOfEvent | lib/plugin_record/record_handler.cpp:19-25 | without losses the record of a call stands at the number of calls before it |
| RecordReplay.ReplayInvariant | lib/plugin_replay/replay.cpp:24-81 | in every state of every replay no thread has died and each follows the recorded thread of its position: same history so far, cursor after as many records |
| RecordReplay.ReplayShowsTheRecording | lib/plugin_replay/replay.cpp:24-81 | determinism: under all record and replay schedules each replayed thread has seen a prefix of what its recorded twin saw, and all of it once finished |
| RecordReplay.FinishedReplayIsTheRecording | lib/plugin_replay/replay.cpp:24-81 | when all replayed threads have finished, every recorded thread was replayed in full |
| RecordReplay.ReplayAdvances | lib/plugin_replay/replay.cpp:49-58 | from every state of a replay each unfinished thread can take its next step, and lives |
| RecordReplay.CursorInvariant | lib/plugin_replay/replay.cpp:70-81 | even with lost records, each thread reads its twin's records in order and then nothing, and sees no more selections than it read |
| RecordReplay.LostRecordIsFatal | lib/plugin_record/record_handler.cpp:120-121 | if any record of a thread was lost, no replay under any schedule shows that thread all it saw |
| Determinism.ReplaysAreHonest | lib/plugin_replay/replay.cpp:49-81 | in every state of every replay, as long as a thread without losses repeats its twin, the calls it repeated were faithful ones |
| Determinism.UnfaithfulCallIsFatal | lib/plugin_replay/replay.cpp:49-81 | if any recorded call of a thread is not faithful, no replay under any schedule shows that thread all it saw |
| Determinism.ReplayCanFollow | lib/plugin_replay/replay.cpp:24-81 | a faithful recording can be replayed step by step in the order in which it was made |
| Determinism.ReplayableExactly | lib/plugin_replay/replay.cpp:24-81 | some schedule replays a finished recording in full if and only if no record was lost and every call was faithful |
| LockedRecording.RunsOfParts | lib/plugin_record/record_handler.cpp:112-159 | recording under the lock is, part by part, a run of the recorder and a run of the lock |
| LockedRecording.RunKeepsInv | lib/plugin_record/record_handler.cpp:117-121 | in every state the records lost by all threads together are the early returns, and only threads that asked for a selection are inside the handler |
| LockedRecording.NoneLostExactly | lib/plugin_record/record_handler.cpp:117-121 | a finished recording lost no record if and only if at most one of its selections found the flag unset |
| LockedRecording.LockedReplayableExactly | lib/plugin_record/record_handler.cpp:112-159 | some schedule replays a finished recording in full if and only if at most one selection found the flag unset and every call was faithful |
| Determinism.GuardedProgramIsFaithful | lib/plugin_replay/replay.cpp:49-81 | every recording of a program that makes guarded calls only consists of faithful calls |
| Determinism.GuardedReplayShowsTheRecording | lib/plugin_replay/replay.cpp:24-81 | determinism for programs that make guarded calls only, whatever the plugin answered |
| Handles.ReplayedInv | lib/plugin_replay/replay.cpp:19-427 | replayed handles are allocated and pairwise distinct, and every kernel leads to the handle of its program |
| Handles.HandlesAreNames | lib/plugin_replay/replay.cpp:424-425 | two replayed handles are equal if and only if they stand for the same object |
| Handles.HandleIsKept | lib/plugin_replay/replay.cpp:424-426 | an object keeps the handle it was given for the rest of the run |
| Handles.AnswerIsOwnProgram | lib/plugin_replay/replay.cpp:448-452 | in whatever order objects are created, each replayed query is answered with the handle of the very program its kernel was created from |
| Handles.RenamedExactly | lib/plugin_replay/replay.cpp:60-66 | whatever the recorded handle was, a replayed query yields the replayed handle of the object asked for if and only if it asks for a kernel's program |
| Handles.ReplayHandles.PiKernelCreate | lib/plugin_replay/replay.cpp:419-428 | the created kernel is fresh and is remembered with the program passed |
| Handles.ReplayHandles.PiKernelGetProgram | lib/plugin_replay/replay.cpp:450-452 | the remembered program, or null; entering an unknown kernel changes no answer |
| Renaming.ReplayedOpsAreDone | lib/plugin_replay/replay.cpp:419-452 | in every replay, what was done with handles is what the threads' actions at those places ask for |
| Renaming.OpsMean | lib/plugin_replay/replay.cpp:168-452 | which successful calls make an object, which make a kernel of which program, and which ask for one |
| Renaming.ReplayedOpsAreListed | lib/plugin_replay/replay.cpp:419-452 | in every replay each successful creation and each successful query for a kernel's program is among the operations, under the name of its call |
| Renaming.CausalRunsAreWellFormed | lib/plugin_replay/replay.cpp:19-427 | no object name is ever given twice, so a run that uses objects only after they were made is well formed |
| Renaming.ReplayedQueriesAreRenamed | lib/plugin_replay/replay.cpp:440-455 | under all record and replay schedules for which determinism holds and in which objects are used after they were made, every replayed query for a kernel's program was recorded at the same place; the address logged there is the recorded handle of the program the kernel was created from, and the answer is the replayed handle of that program |
| BinaryDump.ReachableInv | lib/plugin_record/record_handler.cpp:16-159 | in every interleaving at most one thread dumps, and every call that found the flag unset is waiting, has returned early, or is the one that set the flag |
| BinaryDump.DumpedAtMostOnce | lib/plugin_record/record_handler.cpp:117-147 | no image is ever written twice, and records written plus early returns equal completed calls |
| BinaryDump.LossesExactly | lib/plugin_record/record_handler.cpp:117-121 | when no call is in progress, of the calls that found the flag unset all but one lost their record |
| BinaryDump.LateSelectionDoesNotWait | lib/plugin_record/record_handler.cpp:117-121 | once the flag is set, a thread outside the handler is outside again after every step, and a selection it makes is recorded in that step |
| BinaryDump.IdleFromThenOn | lib/plugin_record/record_handler.cpp:117-121 | over runs, a thread that is outside once the flag is set never waits again |
| BinaryDump.LeavingCompletes | lib/plugin_record/record_handler.cpp:117-159 | a thread that leaves the handler has completed its call: with a record if it dumped, without if it had waited |
| BinaryDump.OnlyWaitersLose | lib/plugin_record/record_handler.cpp:117-121 | over runs, from the setting of the flag on early returns and waiting threads add up to the same number: exactly the threads that waited then lose their record |
| BinaryDump.OneSelectingThreadLosesNothing | lib/plugin_record/record_handler.cpp:117-159 | as long as a single thread selects, however often, every call is recorded |
| BinaryDump.LossIsReachable | lib/plugin_record/record_handler.cpp:117-121 | two threads that both find the flag unset end with one record written and one lost |
| BinaryDump.NoSecondDump | lib/plugin_record/record_handler.cpp:117-124 | once the flag is set and nobody dumps, no step writes an image or starts a dump |
| BinaryDump.WinnerDumpsAll | lib/plugin_record/record_handler.cpp:123-147 | when the dumping thread leaves its loop, each of its images is on disk exactly once |
| TraceeMemory.StringUnique | lib/utils/Tracer.cpp:133-140 | at most one NUL-terminated string starts at an address |
| TraceeMemory.RedZoneSafeIffShort | lib/utils/Tracer.cpp:151-155 | writing a string below the stack pointer is sure to spare the 128-byte red zone (section 3.2.2 of the System V AMD64 ABI) if and only if it is shorter than PATH_MAX |
| TraceeMemory.ReadExact | lib/utils/Tracer.cpp:113-146 | a string is read back if and only if the whole word that holds its terminator is mapped; else the failing peek puts other bytes into the result |
| TraceeMemory.Tracee.ReadString | lib/utils/Tracer.cpp:113-146 | the loop yields all words before the first one with a NUL, failing peeks included, and that one up to the NUL |
| TraceeMemory.Tracee.TakeWord | lib/utils/Tracer.cpp:133-140 | the characters of a word up to its first NUL, and whether there is one |
| TraceeMemory.Tracee.FillWord | lib/utils/Tracer.cpp:160-170 | a word of the copy holds its part of the string and, in the last word, the terminator; nothing is said of the bytes behind it |
| TraceeMemory.Tracee.WriteString | lib/utils/Tracer.cpp:148-181 | with the stack mapped, exactly 8 * (n / 8 + 1) bytes below the red zone change, they hold the string and its terminator whatever the garbage in the last word, and only the given register is redirected there |
| TraceeMemory.WrittenStringIsThere | lib/utils/Tracer.cpp:113-181 | the written string, and no other, is what a reader of the address finds |
| Tracer.FilterStopsWatched | lib/utils/Tracer.cpp:86-95 | the installed filter stops a system call if and only if the loop has a case for its number |
| Tracer.SomeStatuses | lib/utils/Tracer.cpp:55-79 | where the exit code, the signal and the event of a report stand in the status word |
| Tracer.StatusDecoded | lib/utils/Tracer.cpp:39-83 | every kernel report is classified as what it is, with its code, and exactly the seccomp stops are taken for such |
| Tracer.ReportedStep | lib/utils/Tracer.cpp:275-285 | for every reported step of the tracee the loop ends exactly at terminating steps, with their code, and serves exactly the watched calls |
| Tracer.UnreportedAddNothing | lib/utils/Tracer.cpp:86-95 | steps the kernel does not report contain no watched call and do not end the tracee |
| Tracer.NativeTracer.HandleStop | lib/utils/Tracer.cpp:287-315 | one handler of the right kind is told the call's own file name; the kernel resumes with the replacement if there is one, else with everything as it was; the write throws exactly when the stack has no room for the replacement |
| Tracer.NativeTracer.Work | lib/utils/Tracer.cpp:269-317 | for every run of the tracee exactly the watched calls before its end are served, once each and in order, and the exit code is that of the first terminating report; at a replacement without room the handler was told and the loop throws, as it does without a terminating report |
| Archive.WriteArchive | src/pack.cpp:81-117 | the stream is a version byte and the entries of the walk, in order |
| Archive.EntryLayout | src/pack.cpp:91-108 | a directory is kind 0, a file kind 1, followed by the 64-bit length of the path, the path and, for a file, the length of the compressed contents and these; anything else leaves no entry |
| Archive.ParseV0 | src/unpack.cpp:19-52 | for an archive whose lengths lie inside the file the cursor loop applies all entries in order, or stops at the first the file system refuses; OutOfBounds marks where the code would read past the file |
| Archive.InBoundsExactly | src/unpack.cpp:24-51 | whatever lies in the output directory, parsing stays inside the file if and only if every length field, and what it announces, does |
| Archive.PackedIsFramed | src/pack.cpp:88-108 | what the writer produces has all its lengths inside the file |
| Archive.Unpack | src/unpack.cpp:54-76 | version 0 is parsed, every other version is refused; as for the parser, OutOfBounds marks an overrun |
| Archive.ParseEntry | src/unpack.cpp:24-51 | parsing what was written for one node consumes exactly those bytes and adds exactly that node |
| Archive.ParseWalk | src/unpack.cpp:19-52 | from every point of a parents-first walk the parser rebuilds the rest, always finding the parent directory present |
| Archive.SpecialNodesAreDropped | src/pack.cpp:88-115 | for every tree and every parents-first walk, what comes back is the tree without sockets, devices and the like |
| Archive.ArchiveRoundTrip | src/pack.cpp:81-117 | a tree of directories and files comes back identical |
| Archive.PackThenUnpack | src/unpack.cpp:54-76 | running both commands gives the tree back, without special nodes |
| PackMap.PackedNamesDiffer | src/pack.cpp:63-64 | names made with different counters differ, whatever the stems, and none is "0" |
| PackMap.SkippedMeans | src/pack.cpp:52-57 | a path is skipped if and only if its text begins with "/dev", "/sys" or "/proc" |
| PackMap.FilenameMeans | src/replay.cpp:168 | the file name is what follows the last slash |
| PackMap.StemMeans | src/pack.cpp:63-64 | the stem is the file name up to its last dot, unless nothing stands before that |
| PackMap.Packer.constructor | src/pack.cpp:42-48 | the executable is copied as "0" and mapped to it |
| PackMap.Packer.PackOne | src/pack.cpp:50-69 | a packable path gets a new copy with its contents and is mapped to it, earlier copies stay; any other path changes nothing |
| PackMap.Packer.PackAll | src/pack.cpp:48-69 | after any list, with repeats, the map covers exactly the executable and the packable paths, packed names are pairwise distinct and every mapped path leads to its own contents |
| PackMap.ChosenMeans | src/pack.cpp:50-61 | the covered paths are the listed regular files outside the skipped prefixes |
| PackMap.ContainsMeans | src/replay.cpp:165 | the substring search is true if and only if the text occurs at some position |
| PackMap.FindSuitableReplacement | src/replay.cpp:162-181 | the early-return search gives the path of the copy of the first matching key, or of the path itself, or nothing |
| PackMap.RedirectsToContents | src/replay.cpp:162-181 | every redirection leads to the contents of its target; without ".so" the target is the path itself, exactly when mapped; with it, the target's path contains the file name, and there is none only if no mapped path does |
| PackMap.MappedPathIsRedirected | src/replay.cpp:168-174 | an access to a mapped path is always redirected |
| PackMap.LibraryHitIsItself | src/replay.cpp:165-174 | a mapped path is redirected to itself if and only if it has no ".so" or no earlier key contains its file name |
| PackMap.SameLibraryNameIsMixedUp | src/replay.cpp:168-174 | with a library of one file name recorded from two directories, accesses to the second go to the copy of the first |
| GdbCodec.Encode | src/debug_server/GDBServerProtocol.cpp:30-41 | the loop writes each byte as two lower-case digits, in order |
| GdbCodec.Decode | src/debug_server/GDBServerProtocol.cpp:57-68 | in 8-bit arithmetic the loop yields the value of each pair of digits |
| GdbCodec.DecodeString | src/debug_server/GDBServerProtocol.cpp:114-134 | the flip-flop over signed characters yields the same bytes as decode, and drops an odd last digit |
| GdbCodec.HexRoundTrip | src/debug_server/GDBServerProtocol.cpp:30-68 | decoding an encoded byte string gives it back |
| GdbCodec.DigitTable | src/debug_server/GDBServerProtocol.cpp:34-38 | the sixteen digits, written in lower case |
| GdbCodec.HexOfAt | src/debug_server/GDBServerProtocol.cpp:33-39 | byte k is written as digits 2k and 2k + 1, the high one first |
| GdbCodec.BytesOfAt | src/debug_server/GDBServerProtocol.cpp:61-66 | byte k is read from digits 2k and 2k + 1 |
| GdbCodec.PairExact | src/debug_server/GDBServerProtocol.cpp:47-68 | a pair of hex digits is decoded to its value if and only if the second is not upper-case |
| GdbCodec.ParseInt | src/debug_server/GDBServerProtocol.cpp:100-112 | the shift-and-or loop in 64 bits, and the largest value for more than 16 digits |
| GdbCodec.SpillExact | src/debug_server/GDBServerProtocol.cpp:105-109 | wrong upper-case digits only ever add to the digits before them, and add nothing if and only if those already have the three high bits |
| GdbCodec.ParseExact | src/debug_server/GDBServerProtocol.cpp:100-112 | a hex text of at most 16 digits is parsed to its positional value if and only if no upper-case digit spills into what stays in the word |
| GdbCodec.HexValueOfParts | src/debug_server/GDBServerProtocol.cpp:105-109 | the value of a text is positional: a digit in front counts sixteen to the length of the rest |
| GdbCodec.ParseLimits | src/debug_server/GDBServerProtocol.cpp:101-104 | more than sixteen digits give the largest number, none give zero |
| GdbCodec.TrimStripsZeros | src/debug_server/GDBServerProtocol.cpp:86-93 | trimming removes zeros from the front only, all of them, and leaves "0" of nothing else |
| GdbCodec.IntRoundTrip | src/debug_server/GDBServerProtocol.cpp:86-112 | every unsigned 64-bit number is parsed back from its encoding |
| GdbCodec.ReencodingTrims | src/debug_server/GDBServerProtocol.cpp:86-112 | a lower-case text of 1 to 16 digits has its positional value, and encoding that value strips exactly its leading zeros |
| GdbPackets.Escape | src/debug_server/GDBServerProtocol.cpp:70-84 | the loop replaces each of the four special bytes by a brace and the toggled byte |
| GdbPackets.EscapeTable | src/debug_server/GDBServerProtocol.cpp:74-80 | what stands for each of the four special bytes, and every other byte for itself |
| GdbPackets.ToggleIsXor | src/debug_server/GDBServerProtocol.cpp:77 | toggling is exclusive or with 0x20, on all bytes |
| GdbPackets.EscapeRoundTrip | src/debug_server/GDBServerProtocol.cpp:70-84 | escaped data contains no '#', '$' or '*', and unescaping gives the data back |
| GdbPackets.UnescapeExact | src/debug_server/GDBServerProtocol.cpp:70-84 | text survives the client's unescaping unchanged if and only if it has no brace |
| GdbPackets.PrefixYieldsLess | src/debug_server/GDBServerProtocol.cpp:410 | every proper prefix of escaped data yields fewer bytes than the data |
| GdbPackets.Checksum | src/debug_server/GDBServerProtocol.cpp:158-163 | the accumulator ends as the byte sum modulo 256 |
| GdbPackets.ChecksumAdds | src/debug_server/GDBServerProtocol.cpp:158-163 | the checksum of one byte is the byte, and the checksums of two parts add up modulo 256 |
| GdbPackets.CreateResponse | src/debug_server/GDBServerProtocol.cpp:165-175 | a reply is the optional '+', '$', the payload, '#' and two checksum digits |
| GdbPackets.SomePackets | src/debug_server/GDBServerProtocol.cpp:165-175 | "OK" is sent as "+$OK#9a", and "l" without acknowledgement as "$l#6c" |
| GdbPackets.FramingExact | src/debug_server/GDBServerProtocol.cpp:158-175 | a client that cuts at the first '#' and verifies the checksum gets the payload if and only if it has no '#' |
| GdbPackets.EscapedDataArrives | src/debug_server/GDBServerProtocol.cpp:70-175 | escaped data always arrives, byte for byte |
| GdbPackets.PlainDataExact | src/debug_server/GDBServerProtocol.cpp:165-175 | unescaped data arrives if and only if it has neither '#' nor '}' |
| GdbPackets.PreadReply | src/debug_server/GDBServerProtocol.cpp:645-654 | a successful pread reply announces the count and carries the escaped bytes |
| GdbPackets.PreadArrives | src/debug_server/GDBServerProtocol.cpp:632-656 | the client gets exactly the bytes read, and the announced count is their number |
| GdbXfer.SliceShape | src/debug_server/GDBServerProtocol.cpp:383-392 | a chunk within the size is marked 'm' and full, one that reaches past it is marked 'l' and runs to the end of the text |
| GdbXfer.SliceWraps | src/debug_server/GDBServerProtocol.cpp:387-392 | a length that makes the sum wrap around brings the rest of the text, but marked as if more followed |
| GdbXfer.Download | src/debug_server/GDBServerProtocol.cpp:379-394 | a client that advances by the bytes received and stops at 'l' or an empty reply gets exactly the object, in exactly size / chunk + 1 requests |
| GdbXfer.DownloadOverWire | src/debug_server/GDBServerProtocol.cpp:373-444 | the client's loop over framed replies, for every text and every bound on the requests, ends as the step by step download does |
| GdbXfer.CleanDownload | src/debug_server/GDBServerProtocol.cpp:373-394 | from any point of a text without '#' and '}' enough requests bring the rest |
| GdbXfer.StuckAt | src/debug_server/GDBServerProtocol.cpp:373-394 | fetched byte by byte, a text is never delivered past its first '#' or '}', however many requests are made |
| GdbXfer.PlainDownloadExact | src/debug_server/GDBServerProtocol.cpp:379-440 | a features or exec-file object is delivered for every chunk length if and only if it has neither '#' nor '}' |
| GdbXfer.PlainInOneRequest | src/debug_server/GDBServerProtocol.cpp:379-440 | for each chunk length above its size, an object is delivered if and only if it has neither '#' nor '}' |
| GdbXfer.OneRequest | src/debug_server/GDBServerProtocol.cpp:383-394 | a client that asks for more than the size gets exactly what one reply brings, or nothing if that has a '#' |
| GdbXfer.CollectedIs | src/debug_server/GDBServerProtocol.cpp:404-417 | what all auxv chunks together contain is the escaped data up to the end of the last chunk |
| GdbXfer.AuxvExact | src/debug_server/GDBServerProtocol.cpp:404-417 | a client that joins the text of all chunks and unescapes the whole recovers auxv if and only if the escapes fit into what the last chunk has room for beyond the raw size |
| GdbXfer.AuxvDecodedExact | src/debug_server/GDBServerProtocol.cpp:404-417 | a client that unescapes each chunk and advances by the bytes obtained recovers auxv for every chunk length if and only if nothing in it needs escaping |
| GdbXfer.AuxvInOneRequest | src/debug_server/GDBServerProtocol.cpp:404-417 | for each chunk length above its size, that client recovers auxv if and only if its escaped form fits into the chunk |
| GdbSession.GDBServerProtocol.ProcessPacket | src/debug_server/GDBServerProtocol.cpp:177-279 | each packet changes exactly its own session field and is answered in the acknowledgement mode it found |
| GdbSession.GDBServerProtocol.ProcessQfThreadInfo | src/debug_server/GDBServerProtocol.cpp:268-279 | the thread at the index is listed and the index moves on; past the last one the list ends and the index returns to 0 |
| GdbSession.PlusExact | src/debug_server/GDBServerProtocol.cpp:165-252 | in every run a nonempty reply starts with '+' if and only if no earlier packet was QStartNoAckMode or the packet is one itself |
| GdbSession.RepliesInRun | src/debug_server/GDBServerProtocol.cpp:177-279 | in every run each packet gets its own reply, acknowledged until the first QStartNoAckMode |
| GdbSession.RunsUntilKilled | src/debug_server/GDBServerProtocol.cpp:224-226 | the session runs exactly until the first kill |
| GdbSession.SelectedIsLastNamed | src/debug_server/GDBServerProtocol.cpp:254-266 | in every run the selected thread is the one named last, the first one for a minus sign and before any selection |
| GdbSession.IndexIsAsked | src/debug_server/GDBServerProtocol.cpp:268-279 | in every run the index is the number of thread-info requests so far modulo N + 1 |
| GdbSession.ThreadsListedInOrder | src/debug_server/GDBServerProtocol.cpp:193-279 | whatever is interleaved, N + 1 thread-info requests from index 0 list each thread once and in order, then "l", and return the index to 0 |
| GdbSession.ListedIdIsThread | src/debug_server/GDBServerProtocol.cpp:272-274 | the client receives the reply and parses the thread's id from it |
| PerfSummary.PerfMap.CollectPerf | src/print.cpp:195-205 | exactly the row of the record's function takes in one more duration |
| PerfSummary.CollectedCommutes | src/print.cpp:195-205 | two records can be collected in either order, wrap-around included |
| PerfSummary.TableIgnoresOrder | src/print.cpp:193-238 | every permutation of the records gives the same table |
| PerfSummary.RowMeans | src/print.cpp:195-205 | a row exists exactly for functions with calls; modulo 2^64 it has their number and total, and its extremes bound all durations and occur |
| PerfSummary.TotalFromTimestamps | src/print.cpp:201-202 | the total of a row is the sum of the ends of its calls minus the sum of their starts, in 64 bits |
| PerfSummary.ExtremesFromTimestamps | src/print.cpp:201-204 | if no call ends before it starts, the extremes of a row bound end minus start of all its calls, and two calls attain them |
| PerfSummary.TableIgnoresClockStart | src/print.cpp:195-205 | adding the same time to all timestamps leaves the table as it is |
| PerfSummary.HasTimes | src/print.cpp:196-198 | a function has durations if and only if some record is a call of it |
| PerfSummary.AverageBetween | src/print.cpp:98-103 | as long as nothing overflows the printed average lies between the extremes |
| PerfSummary.SortExact | src/print.cpp:226-234 | every sort lists a thread's calls in file order if and only if their starts never decrease and calls that start together are the same record |
| PerfSummary.SortKeepsThreadOrder | src/print.cpp:226-234 | if a thread's start times strictly increase, every sort lists its calls in file order |
| PerfSummary.SomeSort | src/print.cpp:226-229 | every list of records has an ordered permutation |
| PerfSummary.TiesMayFlip | src/print.cpp:226-229 | the smallest case: two different calls of a thread with equal start times may be listed in either order |
| PerfSummary.PrintTrace | src/print.cpp:193-238 | in both modes every record is listed once, under its own thread and in its order, and the table is that of the records; in the grouped mode every section is closed under its own name before the next one starts |
| GraphDump.OrderIsTheIds | lib/graph_dump/graph_dump.cpp:139-171 | after every run of callbacks exactly the ids with an event are listed, each once |
| GraphDump.LifeIsTimedSince | lib/graph_dump/graph_dump.cpp:123-171 | an id has an event if and only if a callback other than a task begin named it; the event is the one the first such callback made, with the times of the last task callbacks after it |
| GraphDump.HasEvent | lib/graph_dump/graph_dump.cpp:123-171 | an id has an event if and only if a callback other than a task begin named it |
| GraphDump.EventMeans | lib/graph_dump/graph_dump.cpp:144-159 | an event keeps the time, the metadata and, for an edge only, the source and the target of the callback that created it |
| GraphDump.TimeIsSet | lib/graph_dump/graph_dump.cpp:123-137 | a task callback on an id with an event sets its own time, which stays until the next of its kind |
| GraphDump.NoTimeBeforeCreation | lib/graph_dump/graph_dump.cpp:117-148 | if callbacks are serialised in time, no event starts or ends before its creation |
| GraphDump.GraphData.FindById | lib/graph_dump/graph_dump.cpp:111-115 | the search from the back finds the only event of the id, and finds one if and only if the id set has it |
| GraphDump.GraphData.TpCallback | lib/graph_dump/graph_dump.cpp:123-171 | the list keeps holding exactly the events of the per-id view, in creation order, and the id set keeps agreeing with it; events are never removed or replaced |
| GraphDump.GraphData.AddEvent | lib/graph_dump/graph_dump.cpp:142-171 | one fresh event is appended for an id not seen before |
| GraphDump.GraphData.DumpGraph | lib/graph_dump/graph_dump.cpp:59-74 | the file is the frames of all events, in creation order |

## Left out

- protobuf and zstd: each is a pair of functions with one law; protobuf's covers the zero byte both readers append.
- PI arguments: the argument list of a record (`collectArgs`) is not part of the modelled record, because replay never reads it.
- Numeric ids: entry points are constructors, not PiApiKind numbers, whose list is not in the repository; only that id 0 is piPlatformsGet is used.
- PiCalls.ReplayExact: memory that a call writes is taken as written when the call returns; later events and waits at which it becomes visible are not modelled, nor is a mapping that failed, for which the recorder reads an unset pointer. The arrays of platform and device handles are not outcomes.
- PiCalls.GuardExact: a query for a kernel's program is not guarded, because a plugin may fail to answer it.
- PiCalls.ReplayThread.Replay: a record cut short, or a size of 2^32 - 1, is taken as fatal, because what the parser makes of the garbage is unknown; a clean end of file is modelled as the blank record it produces.
- Handles: platforms, devices and events get fresh handles too, and USM memory fresh addresses, but nothing looks them up, so their creations are not among the operations; the map that remembers a buffer's context; the query that reads it dies on replay before it gets there. The missing lock around the kernel map is not modelled; operations are serialised.
- piTearDown: it consumes no record on replay and is taken as the end of a run.
- Renaming.ReplayedQueriesAreRenamed: that a thread uses an object only after it was made, in replay as in recording, is the program's own synchronisation and is assumed.
- TraceFraming.ParseTraceFile: a size field of 2^32 - 1, with which the code overruns an empty buffer.
- ThreadNames.ThreadTable.PthreadCreate: creating and naming a thread is one step; the race in which a child makes calls before it is named, and failing creations, are not modelled.
- RecordReplay.RecordingInvariant: the trace directory starts empty, and event ids are distinct within a thread.
- RecordReplay.ReplayShowsTheRecording: which selections lose their record is left open there, which covers more than the lock allows; `LockedRecording` builds the lock in.
- BinaryDump: the contents and names of the binary files; images are identified by index.
- TraceeMemory.Tracee.ReadString: some word from the address on holds a NUL; without one the code reads on for ever.
- Tracer.NativeTracer.Work: the words that hold the file names are mapped; what happens otherwise is the subject of `TraceeMemory.ReadExact`. The memory a throwing write leaves half written is not described.
- Launching, ptrace options, process environments and the JSON configuration files.
- Archive.WriteArchive: symbolic links, which the code resolves when it computes relative paths.
- Archive: absolute and ".." paths in a hand-made archive, and directory iteration itself (any parents-first order is allowed).
- PackMap.FindSuitableReplacement: the text of the configuration file; the order of the map's keys is arbitrary.
- GDB dispatch: the regular expressions that recognise packets become the constructors of a request, and every command with one framed answer that leaves the session's fields alone is one constructor; thread selections that match no pattern are among these.
- GDB `G` and `M`: as written one decodes the packet header and the other never matches its own pattern.
- GdbCodec.Decode: an odd number of digits, with which the code reads past the text.
- GdbPackets.PreadReply: a failing read, where the code resizes its buffer by a negative number and throws.
- The client's run-length decoding; a payload with a plain '*' is only known to pass framing and unescaping.
- Debugger commands on registers, memory, breakpoints and continuation, and everything behind LLDB.
- PerfSummary.PrintTrace: formatting, argument printing and the image descriptions; the order of the table's rows.
- GraphDump.NoTimeBeforeCreation: the code takes its timestamp before the lock, so callbacks may be serialised in another order than their times; the statement is for runs in which they are not.
- Clocks, sockets, options, pretty printers and the graph converter script.
