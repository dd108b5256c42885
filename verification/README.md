# A verified model of the character driver, the GUI back end and the HTTP demo

The repository is a set of Linux system-programming demos. Three parts of it hold state or text that is hard
to get right, and this project models and proves those three:

* **`mychardev`, a character driver with five minors** (`Driver*.dfy`). Each minor has a 256-byte buffer, a
  size, a ready flag, an exclusive-open word and a wait queue, and a write on one minor is broadcast to the
  others. `DriverModel` says what each handler does and defines runs; a run is *any* list of events, so the
  theorems quantify over every schedule of opens, releases, blocking reads, signals, writes, faulted copies,
  seeks and ioctls. `DriverLaws` says call by call what callers may rely on: which calls fail and with what,
  what a failed call leaves alone, what readers see after a write, a RESET or a SETSIZE. `DriverObjects` is the driver as the C code has it, with devices and files updated in
  place, and proves each handler equal to its step, so the theorems about runs are about these methods.
  The main results are: the minors refine one shared file (`ReplicasRefineOneFile`); with ioctls and faulted
  copies, a watermark says how many leading bytes of two minors still agree (`ReplicasAgree`); no wake-up is
  lost, exactly unless SETSIZE raises the flag over a sleeper (`NoLostWakeup`); a minor is open at most once
  (`ExclusiveOpen`); wrapped 64-bit seeks are exact (`CursorsStayInRange`); cutting a write into chunks is
  invisible (`ChunkingIsInvisible`); what one minor is given any minor hands out (`CrossMinorRoundTrip`).
  `DriverInterleaving` drops the assumption that a handler is one step: no interleaving of the statements of
  writes and ioctls leaves a buffer (`BoundsUnderInterleaving`), and a call nobody interrupts is its atomic
  step (`WriteAloneIsAtomic`, `IoctlAloneIsAtomic`). `DriverSerial` carries that to whole schedules: if calls
  do not overlap, any schedule of statements is a run of the atomic handlers (`SerialSchedulesAreRuns`), so
  the agreement of the minors holds of it. `DriverOverlap` says what overlap keeps and breaks: any number
  of overlapping writes leave the minors in agreement after every interleaving exactly if they would all show
  the same bytes alone (`OverlappingWritesAgreeIff`), and one undisturbed broadcast repairs whatever went
  before (`QuietBroadcastAgrees`). `DriverRacingRead` does the same for the two loads of the
  size in my_read (`AlwaysInsideIff`). `DriverRegistration` covers loading and unloading.
* **The GUI back end.** `Supervisor` is the start/stop state machine of the demo server, run statement by
  statement by any number of threads while the child may die at any moment: at most one server runs, a stop
  leaves none, and a start fails only if the child it spawned died and raises only if the spawn was refused.
  `ShellQuote` reads `sh_quote`
  back with a POSIX shell lexer. `AnsiRemover` proves `clean_output` against the language of control
  sequences of ECMA-48. `Crontab` and `CronJobs` are the crontab store, its fields and its lines.
* **The output path of `socket_demo`** (`SocketDemo`): the partial-send loop, the Content-Length framing, and
  what a client that follows RFC 9112 makes of a whole or an interrupted response.

`Decimals` holds decimal numerals, which the last two share, and `Basics` a few definitions used in several
modules.

Four properties one could expect are false of the code. Each has a lemma with concrete inputs that fail and a
lemma that says exactly when it holds:

* A sleeping reader can miss data: SETSIZE raises the ready flag without waking anybody
  (`SetSizeLosesAWakeup`). `LosesWakeupIff` gives the exact step, `NoLostWakeup` the exact runs.
* The minors can end up different when writes overlap (`ConcurrentWritesDiverge`, with the two schedules
  `StaleBroadcast` and `StaleSize`). `OverlappingWritesAgreeIff` gives the exact sets of writes.
* A read whose two loads of the size are separated by a RESET can ask for a copy of negative length
  (`ResetShrinks`). `InsideIffNotShrunk` gives the exact schedules, `AlwaysInsideIff` the exact positions.
* Not every list of lines survives the crontab, and an edit may change lines it is not about: a command with a
  line break is not read back (`BrokenCommandIsLost`), and deleting one line can change another because
  cleaning twice is not cleaning once (`DeleteChangesAnother`). `RoundTripIff`, `JobStorableIff`,
  `AddThenDeleteLast`, `DeleteKeepsTheRest` and `TextRoundTripIff` give the exact conditions.

The number of minors is a parameter everywhere; the driver's own value is `MY_MAX_MINORS`. The loop of
`my_write` compares device addresses to skip the writer, which the model renders as comparing indices in the
step functions and as comparing objects in `DriverObjects.Broadcast`.

## Model

| member | source | states |
|---|---|---|
| `DriverModel.Step` | 04_char_driver/mychardev.c:25-152 | every handler, on any event, keeps every size and cursor within 0..256, every buffer 256 bytes long, and every handle bound to a minor that exists |
| `DriverLaws.FailedCallMovesNoCursor` | 04_char_driver/mychardev.c:25-152 | a call that fails or blocks moves no cursor and opens or closes nothing |
| `DriverLaws.FailedCallKeepsDevices` | 04_char_driver/mychardev.c:25-152 | a call that fails, a torn write aside, leaves bytes, size, flag and access word of every device, and puts nobody to sleep |
| `DriverLaws.TornWriteTouchesItsRange` | 04_char_driver/mychardev.c:76-77 | a write whose copy faults answers EFAULT, moves no cursor, keeps size, flag, access word and sleepers of every minor, and changes at most the bytes it was to write on its own minor |
| `DriverLaws.WriteAnswers` | 04_char_driver/mychardev.c:72-79 | ENOSPC iff the position is the end of the buffer, EFAULT iff there is room and the copy faults, and otherwise min(length, room) bytes, by which the cursor moves |
| `DriverLaws.WriteIsSeen` | 04_char_driver/mychardev.c:76-96 | after a write at a position every minor shows the writer's bytes in front of it and the accepted bytes, hides its own old bytes behind that, has its flag up and nobody asleep |
| `DriverLaws.WrittenSizeIsReported` | 04_char_driver/mychardev.c:144-148 | after a write GETSIZE answers its end through any file on any minor |
| `DriverLaws.EntryAnswers` | 04_char_driver/mychardev.c:51-52 | the entry of a read answers EAGAIN iff the file must not block and its minor is not ready; otherwise the read is on its way with the cursor it saw |
| `DriverLaws.CheckAnswers` | 04_char_driver/mychardev.c:53-62 | a running read blocks iff the flag is down without a signal, is interrupted iff it is down with one, faults iff there was something to copy and the copy faults, and otherwise hands out the bytes at its position up to the size and leaves the cursor behind them |
| `DriverLaws.EmptiedMinorBlocks` | 04_char_driver/mychardev.c:131-143 | after RESET or SETSIZE 0 GETSIZE answers 0, a non-blocking read gets EAGAIN, any other goes to sleep or is interrupted, and other minors are untouched |
| `DriverLaws.SetSizeAnswers` | 04_char_driver/mychardev.c:136-143 | EFAULT iff the copy faults, EINVAL iff the value is out of range, and then nothing changes; otherwise 0 |
| `DriverLaws.SetSizeShows` | 04_char_driver/mychardev.c:141-143 | after an accepted SETSIZE to n > 0 a reader from the start gets the first n bytes of the buffer, hidden ones included |
| `DriverLaws.ResizedDevice` | 04_char_driver/mychardev.c:141-143 | SETSIZE moves no byte, wakes nobody and touches no other minor |
| `DriverLaws.AskingChangesNothing` | 04_char_driver/mychardev.c:144-150 | GETSIZE and unknown commands change nothing, and the latter answer ENOTTY |
| `DriverLaws.SeekThenTell` | 04_char_driver/mychardev.c:118-122 | after a seek, asking for the position gives its answer, or the old position if it failed; nothing else moves |
| `DriverLaws.OpenStartsAtZero` | 04_char_driver/mychardev.c:25-36 | an accepted open starts at position 0 with the blocking mode asked for, and changes only the access word |
| `DriverLaws.ReleaseFreesTheMinor` | 04_char_driver/mychardev.c:38-44 | after release the minor can be opened again; its contents stay |
| `DriverInvariants.ExclusiveOpen` | 04_char_driver/mychardev.c:25-44 | after any run the open files of a minor number exactly its `access` word, never more than one, and the next open succeeds iff nobody holds the minor and answers EBUSY otherwise |
| `DriverInvariants.StepKeepsExclusiveOpen` | 04_char_driver/mychardev.c:25-44 | every handler keeps `access` equal to the number of open files of its minor and at most one |
| `DriverInvariants.CursorsStayInRange` | 04_char_driver/mychardev.c:99-123 | in every reachable state the cursor is in 0..256 and a seek answers what unbounded arithmetic answers |
| `DriverInvariants.SeekIsExact` | 04_char_driver/mychardev.c:104-122 | from any well-formed state, for every 64-bit offset and every whence, the wrapping seek accepts and returns exactly what the unbounded one does |
| `DriverInvariants.WrapAgrees` | 04_char_driver/.mychardev.o.cmd:1 | under `-fno-strict-overflow` a wrapped sum is in the buffer's range iff the true sum is, and then equals it |
| `DriverInvariants.LosesWakeupIff` | 04_char_driver/mychardev.c:136-143 | a step leaves a reader asleep on a ready minor iff it is an accepted positive SETSIZE on a minor somebody sleeps on |
| `DriverInvariants.NoLostWakeup` | 04_char_driver/mychardev.c:51-95 | over whole runs from load, no state has a sleeper on a ready minor iff no such SETSIZE happens in the run |
| `DriverInvariants.SleepersHaveNothingToRead` | 04_char_driver/mychardev.c:51-56 | in a run without SETSIZE, wherever RESETs fall, a sleeper is a read in flight on that minor, its flag is down and its size is 0 |
| `DriverInvariants.WriteWakesEveryone` | 04_char_driver/mychardev.c:80-95 | a successful write, even of no bytes, leaves nobody asleep on any minor, and every read in flight passes its wait at its next check |
| `DriverInvariants.SetSizeLosesAWakeup` | 04_char_driver/mychardev.c:141-142 | concrete runs, one for each size and number of minors, that end with data, the flag up and the reader still asleep |
| `DriverReplicas.ReplicasRefineOneFile` | 04_char_driver/mychardev.c:46-97 | in every run without RESET, SETSIZE and faulted writes every call answers what one shared file with per-file cursors answers, and all minors hold its whole buffer, size and flag |
| `DriverReplicas.StepRefines` | 04_char_driver/mychardev.c:25-123 | one step of any file event preserves the refinement and gives the same answer |
| `DriverReplicas.BroadcastKeepsEqual` | 04_char_driver/mychardev.c:87-92 | copying only the first `size` bytes brings a peer that was equal before to the writer's whole new buffer, tail included |
| `DriverReplicas.ReplicasAgree` | 04_char_driver/mychardev.c:65-143 | over every run, any two minors agree below their watermark (raised by writes, dropped to 0 by RESET and to the offset by a faulted copy, kept by SETSIZE), and two minors undisturbed since the last successful write show the same contents |
| `DriverReplicas.StepWatermark` | 04_char_driver/mychardev.c:72-95 | each effect moves the watermark of two minors as stated and agreement below it is kept |
| `DriverReplicas.WriteEqualizes` | 04_char_driver/mychardev.c:87-95 | whatever the minors held, after a successful write any two have equal size, flag and visible bytes |
| `DriverReplicas.EffectsAreLocal` | 04_char_driver/mychardev.c:130-143 | RESET, SETSIZE and a faulted copy change the contents of their own minor only; silent events change none |
| `DriverStreams.ChunkingIsInvisible` | 04_char_driver/mychardev.c:65-97 | for every position and non-empty list of chunks, consecutive writes leave the same state as one write of the concatenation and accept min(total, 256 - position) bytes, ENOSPC counting as none |
| `DriverStreams.TwoWritesAreOne` | 04_char_driver/mychardev.c:72-79 | two writes in a row equal one write of both, in state and in bytes accepted |
| `DriverStreams.ReadOnce` | 04_char_driver/mychardev.c:46-63 | a read of a ready minor hands out the bytes at the cursor, min(count, size - cursor) of them, advances the cursor by as many and changes nothing else |
| `DriverStreams.ReadToEnd` | 04_char_driver/mychardev.c:55-62 | reading until 0 is answered, with any positive request sizes, ends, and hands out in order exactly the visible bytes from the cursor on, changing no device |
| `DriverStreams.CrossMinorRoundTrip` | 04_char_driver/mychardev.c:46-123 | data written at offset 0 on any minor is read back from offset 0 on any minor, exactly its first min(length, 256) bytes and then nothing, and the reads change no device |
| `DriverStreams.RegrowSteps` | 04_char_driver/mychardev.c:130-148 | RESET, SETSIZE to n and a seek to the start lead to a minor of n zero bytes, GETSIZE then answers n, and other minors are untouched |
| `DriverStreams.ResetForgets` | 04_char_driver/mychardev.c:130-143 | there a reader gets exactly n zero bytes, not the bytes from before the RESET |
| `DriverInterleaving.BoundsUnderInterleaving` | 04_char_driver/mychardev.c:72-143 | for any interleaving of the statements of any writes and ioctls, every size stays in 0..256 and no memcpy, memset or user copy leaves its buffer |
| `DriverInterleaving.ExecInBounds` | 04_char_driver/mychardev.c:72-95 | one statement keeps the sizes of all minors and the locals of its call in range whatever other calls did since the last one |
| `DriverInterleaving.WriteAloneIsAtomic` | 04_char_driver/mychardev.c:65-97 | the statements of an uninterrupted write, with the loop and each re-read of `dev->size`, do to the memory what the atomic step does, for any minors, position and data |
| `DriverInterleaving.IoctlAloneIsAtomic` | 04_char_driver/mychardev.c:130-148 | the same for RESET, SETSIZE (accepted or refused) and GETSIZE |
| `DriverInterleaving.FaultedWriteIsAtomic` | 04_char_driver/mychardev.c:76-77 | a write whose user copy faults returns from that statement with EFAULT and the memory of the atomic faulted write: any bytes in the copied range, nothing else |
| `DriverInterleaving.FaultedIoctlIsAtomic` | 04_char_driver/mychardev.c:137-147 | a SETSIZE or GETSIZE whose user copy faults answers EFAULT and changes nothing |
| `DriverInterleaving.RestOfBroadcast` | 04_char_driver/mychardev.c:88-96 | from any pass of the broadcast loop on, the remaining peers get the writer's bytes, size and flag, and the call returns its length |
| `DriverSerial.SerialSchedulesAreRuns` | 04_char_driver/mychardev.c:65-152 | for any minors and any schedule of statements from load on, with any writes, ioctls and outcomes of user copies: if no call starts before every earlier one has returned, the memory at the end is that of a run of the atomic handlers doing the same calls in the same order |
| `DriverSerial.SerialMinorsAgree` | 04_char_driver/mychardev.c:65-143 | hence after any such schedule two minors are equal below their watermark, and show the same if neither was reset, resized or torn since the last successful write |
| `DriverSerial.StaysOnItsWay` | 04_char_driver/mychardev.c:65-152 | each statement of the one call in progress keeps it on the way to the state of its atomic handler, whatever its user copy does |
| `DriverSerial.DeedsAreARun` | 04_char_driver/mychardev.c:25-152 | any list of writes and ioctls is what a program does that opens the minor, seeks, calls and closes, one call after the other |
| `DriverOverlap.OverlappingWritesAgreeIff` | 04_char_driver/mychardev.c:72-96 | any number of writes just called, on the same or different minors, at any positions, over any contents: the minors agree after every interleaving of their statements iff there is one minor only or all of them would show the same bytes alone |
| `DriverOverlap.EqualWritesAgree` | 04_char_driver/mychardev.c:72-96 | any number of writes, overlapping in any way, that alone would each show the same bytes leave every minor showing them |
| `DriverOverlap.QuietBroadcastAgrees` | 04_char_driver/mychardev.c:87-96 | whatever overlapped before, a write that alone changes memory from its broadcast to its return leaves all minors showing what its own minor showed |
| `DriverOverlap.StaleBroadcast` | 04_char_driver/mychardev.c:87-91 | a schedule for writes of equal total length: two with different bytes are overtaken by all others between filling their local arrays and their broadcasts, and the minors end apart |
| `DriverOverlap.StaleSize` | 04_char_driver/mychardev.c:92 | a schedule for writes of different total length: one is overtaken by all others between reading its size and storing it at a peer, and the minors end apart |
| `DriverOverlap.ConcurrentWritesDiverge` | 04_char_driver/mychardev.c:72-96 | from any memory with no call in progress, two writes that alone would show different bytes have a schedule after which both have returned and two minors differ |
| `DriverRacingRead.InsideIffNotShrunk` | 04_char_driver/mychardev.c:55-59 | in any schedule the copy of a read stays inside the buffer iff the size did not fall below the position between the two loads |
| `DriverRacingRead.ResetShrinks` | 04_char_driver/mychardev.c:55-58 | for every position inside the buffer, a schedule in which it does: a longer write before, a RESET between |
| `DriverRacingRead.UnracedReadIsAtomic` | 04_char_driver/mychardev.c:55-62 | with both loads equal the read copies as many bytes as the atomic read, inside the buffer |
| `DriverRacingRead.AlwaysInsideIff` | 04_char_driver/mychardev.c:55-59 | the copy stays inside in every schedule iff the position is 0 or behind the buffer |
| `DriverObjects.MyOpen` | 04_char_driver/mychardev.c:25-36 | open answers EBUSY and changes nothing if the word is set, and sets it otherwise |
| `DriverObjects.MyRelease` | 04_char_driver/mychardev.c:38-44 | release clears the word and nothing else |
| `DriverObjects.MyRead` | 04_char_driver/mychardev.c:53-62 | the in-place read from its wait on is the step's: blocks, gives up on a signal, ends at the size, faults without moving the cursor, or copies and advances |
| `DriverObjects.MyWrite` | 04_char_driver/mychardev.c:65-97 | the in-place write, broadcast included, leaves all devices and the cursor as the step does, with its answer |
| `DriverObjects.Broadcast` | 04_char_driver/mychardev.c:83-95 | the loop gives every other device the writer's first `size` bytes, its size and the flag, wakes its readers, keeps its tail, and leaves the writer alone |
| `DriverObjects.MyLlseek` | 04_char_driver/mychardev.c:99-123 | the in-place seek answers the step's answer and moves the cursor only if it accepts |
| `DriverObjects.MyIoctl` | 04_char_driver/mychardev.c:125-152 | the in-place ioctl changes its device as the step does, with its answer |
| `DriverObjects.Driver.constructor` | 04_char_driver/mychardev.c:172-180 | the device table after load shows the initial state for any number of minors, each with its own buffer |
| `DriverObjects.Driver.Open` | 04_char_driver/mychardev.c:25-36 | the whole object graph shows the state the open step leads to |
| `DriverObjects.Driver.Release` | 04_char_driver/mychardev.c:38-44 | the same for release, once no reader is inside the file |
| `DriverObjects.Driver.ReadEnter` | 04_char_driver/mychardev.c:51-52 | the same for a read up to its wait, EAGAIN included |
| `DriverObjects.Driver.ReadCheck` | 04_char_driver/mychardev.c:53-62 | the same for a read from its wait on |
| `DriverObjects.Driver.Write` | 04_char_driver/mychardev.c:65-97 | the same for a write: every device and every file is as the write step leaves it |
| `DriverObjects.Driver.Llseek` | 04_char_driver/mychardev.c:99-123 | the same for a seek |
| `DriverObjects.Driver.Ioctl` | 04_char_driver/mychardev.c:125-152 | the same for an ioctl |
| `DriverObjects.Driver.Dispatch` | 04_char_driver/mychardev.c:154-162 | whatever event comes, the objects show the state the step leads to, with its answer; events the kernel would not produce change nothing |
| `DriverObjects.Play` | 04_char_driver/mychardev.c:25-152 | any list of events, executed by the methods from load on, ends with the objects showing the final state of the run and gives its answers |
| `DriverRegistration.MyInit` | 04_char_driver/mychardev.c:164-193 | answers 0 iff the region and every cdev_add succeed, and then all are registered and all devices closed and empty; otherwise the registry is as before and the answer is the first failure, that of the region or of the first cdev that could not be added |
| `DriverRegistration.Rollback` | 04_char_driver/mychardev.c:188-192 | removes exactly the cdevs added so far and the region |
| `DriverRegistration.MyExit` | 04_char_driver/mychardev.c:195-203 | removes exactly the driver's cdevs and region |
| `DriverRegistration.LoadThenUnload` | 04_char_driver/mychardev.c:164-203 | loading and then unloading restores the registry, whether or not loading succeeded |
| `Supervisor.AtMostOneServer` | gui_app/app.py:64-88 | in every run of any threads every live child is the tracked one, so at most one is live |
| `Supervisor.StopMeansStopped` | gui_app/app.py:103-121 | when a stop that returns normally releases the lock no child is live and none is tracked; a stop that raises still tracks the child |
| `Supervisor.OneThreadInside` | gui_app/app.py:64-121 | at most one thread is between acquire and release, a child is spawned only when none is live, and no statement uses a tracked process that is not there |
| `Supervisor.StepKeepsInv` | gui_app/app.py:57-123 | each statement, call or death of the child keeps the lock exclusive, every live child tracked, and what the holder knows true |
| `Supervisor.StartSucceeds` | gui_app/app.py:64-103 | in any run with any threads, a start during which no child dies and the spawn is not refused answers success, with one child running, the tracked one |
| `Supervisor.StartFailsOnlyIfTheChildDies` | gui_app/app.py:79-88 | in any run with any threads, a start answers failure only if it spawned a new child, in that call, that died before the answer |
| `Supervisor.RaisesOnlyInTrouble` | gui_app/app.py:71-121 | in any run with any threads, start raises only if the spawn was refused, stop only if a signal was refused or both waits ran out of time |
| `Supervisor.RaisesIff` | gui_app/app.py:71-121 | exactly a refused spawn, a refused signal and the second timeout raise, and such a statement changes nothing else |
| `Supervisor.StartSpawns` | gui_app/app.py:65-103 | with the lock free and no child running, a start whose spawn gives a new process ends in success with that process live and tracked |
| `Supervisor.StartSeesTheDeath` | gui_app/app.py:78-88 | if that process dies before start looks again, the answer is failure and nothing is live or tracked |
| `Supervisor.StartFindsOneRunning` | gui_app/app.py:65-69 | with a child running, start answers success and changes nothing |
| `Supervisor.StopFindsNone` | gui_app/app.py:104-106 | with no child running, stop answers success and tracks none |
| `Supervisor.StopOnTheFirstSignal` | gui_app/app.py:108-123 | a child that exits on the first signal: stop answers success, with none live or tracked |
| `Supervisor.StopOnTheSecondSignal` | gui_app/app.py:113-123 | a child that outlives the first wait and exits on the second signal: the same |
| `ShellQuote.QuoteRoundTrip` | gui_app/app.py:389-390 | every string, quoted, lexes to one word equal to it, unquoted at the end |
| `ShellQuote.QuoteIsLiteral` | gui_app/app.py:389-390 | wherever a word may start or go on, a quoted string adds exactly its characters to the word and leaves the lexer outside quotes |
| `ShellQuote.CommandRoundTrip` | gui_app/app.py:389-390 | a line of unquoted words, operators and quoted values of any content, separated by any blanks, lexes to exactly these |
| `ShellQuote.PackageListCommand` | gui_app/app.py:366 | whatever the pattern, the shell sees the intended pipeline with the pattern as one argument of grep |
| `AnsiRemover.MatchIsExact` | gui_app/app.py:25 | the pattern matches a prefix iff the prefix is a control sequence of ECMA-48, so the length of a match is unique |
| `AnsiRemover.RangesAreColumns` | gui_app/app.py:25 | the three ranges of the pattern are columns 3 and 2 and 04/00 to 07/14 of the ECMA-48 code table, and its two fixed characters are 01/11 and 05/11 |
| `AnsiRemover.AnyReadingIsTheSame` | gui_app/app.py:28-29 | for any division of the text, from the left, into control sequences where one starts and single characters where none does, cleaning leaves exactly those characters |
| `AnsiRemover.DeletesSequences` | gui_app/app.py:28-29 | every text has such a division |
| `AnsiRemover.NoMatchMeansNone` | gui_app/app.py:25 | the pattern fails at a position iff no prefix there is a control sequence |
| `AnsiRemover.OnePassIsEnough` | gui_app/app.py:28-29 | a scanner that reads each character once, holding back partial sequences, gives what repeated leftmost matching gives, on every string |
| `AnsiRemover.SplitsAtEsc` | gui_app/app.py:28-29 | cleaning two pieces cut at any ESC and joining them is cleaning the whole |
| `AnsiRemover.EscFreeIff` | gui_app/app.py:28-29 | the output has no ESC iff every ESC of the input starts a complete sequence |
| `AnsiRemover.UnchangedIff` | gui_app/app.py:28-29 | cleaning changes nothing iff no part of the text is a control sequence |
| `Crontab.RoundTripIff` | gui_app/app.py:284-304 | reading what was written gives the same list iff every line is non-blank and has no line break and no control sequence in it |
| `Crontab.TextRoundTripIff` | gui_app/app.py:284-304 | rewriting leaves the installed text as it was, to the character, iff it is made of newline-terminated lines that the store can hold |
| `Crontab.ReadOfWrite` | gui_app/app.py:284-304 | lines without breaks come back cleaned one by one, those that end up blank dropped |
| `Crontab.CleanAtNewline` | gui_app/app.py:28-29 | no control sequence runs across a newline, so cleaning acts line by line |
| `Crontab.SplitAnyBreaks` | gui_app/app.py:287 | splitlines recovers any lines from any mixture of terminators, CR LF counting as one, with an unterminated last line kept if it is not empty |
| `Crontab.BreaksAreSpaces` | gui_app/app.py:287 | the line boundaries and white space of Python strings by code point: every boundary is white space, no printing ASCII character is |
| `CronJobs.AcceptedFieldsFire` | gui_app/app.py:192-202 | a field is accepted iff it fires at least once in its range and, if a step, is at most high + 1 |
| `CronJobs.StripTakesSpace` | gui_app/app.py:193 | strip takes white space off both ends and nothing else |
| `CronJobs.StripEnds` | gui_app/app.py:193 | what strip leaves neither starts nor ends with white space |
| `CronJobs.BlankStripsToNothing` | gui_app/app.py:287 | the lines that reading drops are exactly those that strip to nothing |
| `CronJobs.ValidFieldsAreSolid` | gui_app/app.py:192-202 | an accepted field is one non-empty word of the characters from `*` to `9` |
| `CronJobs.JobRoundTrip` | gui_app/app.py:308-319 | cron splits the stored line back into the two fields, three stars and the command, whatever blanks the command has |
| `CronJobs.JobStorableIff` | gui_app/app.py:319-320 | a job line is storable iff its command has no line break and no control sequence in it |
| `CronJobs.CronStore.ReadLines` | gui_app/app.py:284-290 | what is read are non-blank lines without line breaks, whatever is installed, and none without a crontab |
| `CronJobs.CronStore.WriteLines` | gui_app/app.py:293-304 | after a successful write the store reads exactly the lines it was given iff each of them is storable |
| `CronJobs.CronStore.Add` | gui_app/app.py:307-325 | accepts iff the fields are valid, the command is not blank and both programs succeed, and otherwise nothing changes; without a crontab the job line is installed alone; the list then read is the old one and the built line iff neither the command nor an old line has a control sequence and the command has no line break |
| `CronJobs.CronStore.Delete` | gui_app/app.py:328-344 | accepts iff the index names a line and both programs succeed, and otherwise nothing changes; without a crontab no index does; the list then read is the old one without that line iff no other line has a control sequence |
| `CronJobs.AddThenDeleteLast` | gui_app/app.py:319-341 | for any installed crontab, adding shows the old lines and the new one iff the new one is storable and no old line has a control sequence, and then deleting the last restores the list under the same condition on the old lines |
| `CronJobs.DeleteKeepsTheRest` | gui_app/app.py:336-341 | for any installed crontab, deleting line k and reading again keeps the order and content of all others iff none of them has a control sequence |
| `CronJobs.AddAppendsIff` | gui_app/app.py:318-321 | adding appends the new line to the installed text and changes nothing else in it iff the text is newline-terminated lines that the store can hold |
| `CronJobs.DeleteCutsOneLine` | gui_app/app.py:336-338 | from such a text, deleting line k takes out that line and its newline and nothing else |
| `CronJobs.BrokenCommandIsLost` | gui_app/app.py:310-319 | a command with a line break that the form accepts and the store does not give back, whatever else is in the list |
| `CronJobs.DeleteChangesAnother` | gui_app/app.py:284-304 | two installed lines of which deleting the second changes the first |
| `SocketDemo.SendAll` | 02_system_prog/src/socket_demo.c:32-46 | for every schedule of partial sends, EINTRs and errors the wire gets a prefix of the data, each byte once, as long as the schedule allows; 0 means all of it, with no send after the last byte; -1 means a strict prefix and that the last send used was the first to fail |
| `SocketDemo.CapacityOf` | 02_system_prog/src/socket_demo.c:36-44 | what a schedule takes adds up until it breaks, and nothing behind the first error counts |
| `SocketDemo.EnoughPositiveTakes` | 02_system_prog/src/socket_demo.c:36-44 | a schedule without errors whose sends take at least one byte each has room for as many bytes as it has sends, so `length` sends end the loop |
| `SocketDemo.HandleClient` | 02_system_prog/src/socket_demo.c:76-106 | answers iff a request came and the body has at most 8066 bytes; then the wire gets a prefix of the response, from which the peer reads the body if the connection took all of it and otherwise that it is incomplete |
| `SocketDemo.Snprintf` | 02_system_prog/src/socket_demo.c:92-103 | the contract of the formatting call: the full length, as much text as fits, and a NUL |
| `SocketDemo.FramingRoundTrip` | 02_system_prog/src/socket_demo.c:95-103 | a parser after sections 6.2 and 6.3 of RFC 9112 recovers exactly the body, whatever follows on the connection |
| `SocketDemo.FramedMessage` | 02_system_prog/src/socket_demo.c:95-103 | the same for any status line of a response with a body and any headers that announce one length, the body's |
| `SocketDemo.HeadRoundTrip` | 02_system_prog/src/socket_demo.c:95-100 | the status line and the header fields come back as printed, whatever the body |
| `SocketDemo.PeerReadsTheHead` | 02_system_prog/src/socket_demo.c:95-100 | the peer reads HTTP/1.1, 200, the media type, the length in decimal, close and no-store |
| `SocketDemo.FitsIff` | 02_system_prog/src/socket_demo.c:51-105 | the response fits the buffer, its NUL counted, iff the body has at most 8066 bytes |
| `SocketDemo.PrefixIsIncomplete` | 02_system_prog/src/socket_demo.c:105-106 | no strict prefix of a message reads as a message |
| `SocketDemo.PeerSeesWholeOrNothing` | 02_system_prog/src/socket_demo.c:92-106 | however the connection breaks, the peer reads exactly the body or knows that the message is incomplete |
| `Decimals.PrintRoundTrip` | 02_system_prog/src/socket_demo.c:97 | the printed decimal of a length reads back as that length |
| `Decimals.Positional` | 02_system_prog/src/socket_demo.c:97 | numerals are positional in base ten |
| `Decimals.PrintIsShortest` | 02_system_prog/src/socket_demo.c:97 | a printed numeral has no leading zero and as many digits as the number needs |

## Left out

- DriverInvariants.NoLostWakeup: the unconditional property is false of the code, because SETSIZE raises the flag without a wake-up; it is stated with its exact condition.
- Crontab.RoundTripIff: the unconditional round trip is false of the code, because reading drops blank lines, splits at line breaks and cleans control sequences; it is stated with its exact condition.
- DriverReplicas.ReplicasAgree: holds of handlers that run one at a time; `DriverSerial` proves it of their statements when calls do not overlap, and `OverlappingWritesAgreeIff` says which overlapping writes keep it.
- DriverOverlap.OverlappingWritesAgreeIff: covers writes that have room and whose user copies succeed. RESET and SETSIZE break the agreement even without overlap, as `ReplicasAgree` says.
- DriverSerial.SerialSchedulesAreRuns: speaks of the memory; wait queues, the access word and my_read are not part of the statement-level system, and what a single call returns is in `WriteAloneIsAtomic` and its companions.
- DriverInterleaving.IoctlAloneIsAtomic: covers the three commands the driver knows; an unknown one is refused without touching memory.
- DriverInterleaving.BoundsUnderInterleaving: covers writes and ioctls. Loads and stores of ints, and each whole copy, are taken as atomic.
- DriverRacingRead.AlwaysInsideIff: covers the two loads and the length; which bytes a copy sees while others write them is not modelled.
- DriverModel.Step: the kernel's user copies, wait queues and signals are parameters of the events (which bytes a faulted copy left, whether a signal came); counts and offsets are non-negative, release comes when no read is inside the file, and a read uses and writes back the position the VFS gave it. pread and pwrite are not modelled. GETSIZE answers the size itself, where the driver returns 0 and stores the size at the address given.
- DriverObjects.Driver: a read in flight is a stack frame of its own thread, so its record is an argument of `ReadCheck` instead of a field; `Memcpy` stands for memcpy, memset and both user copies.
- DriverInterleaving.WriteAloneIsAtomic: covers user copies that succeed, `FaultedWriteIsAtomic` the others. The local array of my_write is zero-filled in the model, where C leaves it uninitialised; only its first `size` bytes are ever copied out when no other call intervenes. What an interleaved call could copy from the rest is not modelled.
- DriverRegistration.MyInit: the kernel's verdicts on each registration are parameters; the major number is fixed, so the tables hold minors only.
- Supervisor.StopMeansStopped: process groups hold the one child, pids are not reused, and whether and when a signal ends the child is left to the schedule. The check that the binary exists is not modelled.
- ShellQuote.CommandRoundTrip: expansions and comments are not lexed; the lexer gives up on an unquoted `$`, backquote or leading `#`, and the unquoted words of a line are free of them.
- CronJobs.AcceptedFieldsFire: digits are ASCII; Python's isdigit also accepts other decimal characters, and recent versions of int() refuse very long numerals, which the model converts.
- CronJobs.JobRoundTrip: says how cron splits the line; that cron then reads an unescaped `%` of the command as a line break is not modelled.
- CronJobs.CronStore.Delete: the index is an integer already; parsing it from the request is not modelled.
- CronJobs.DeleteCutsOneLine: one direction only. A text that is not proper is rewritten as `TextRoundTripIff` and `ReadOfWrite` say.
- Crontab.ReadOfWrite: the newline translation of text-mode pipes is not modelled, so a carriage return counts as the line break it is to splitlines.
- SocketDemo.FramingRoundTrip: transfer codings are rejected by the parser, since the server never sends one.
- SocketDemo.HandleClient: the request is only counted, not parsed, and the log lines are left out; the body is a parameter instead of the one literal page, and may hold a NUL, which a C string cannot.
- The other demos over system calls and /proc, the kernel hello module, the shell manager, the HTML and JavaScript of the GUI, its remaining actions and its HTTP handler: thin layers over system calls and external commands.
