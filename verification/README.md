# Proofs about the embedded core of classic-platform

A Dafny model of six small but intricate parts of the platform, with proofs about all their runs:

* the EEPROM driver (`drivers/Eep/Eep.c`), a job engine that moves bytes over an SPI handler,
* the FlexRay message buffer setup and header CRC (`drivers/Fr/Fr_mpc5xxx.c`, `drivers/Fr/Fr.c`),
* the tail queue macros (`include/sys/queue.h`),
* the circular buffer with its lock and release protocol (`common/cirq_buffer.c`, `include/cirq_buffer.h`),
* the sleep service (`common/sleep.c`),
* number formatting, bounded printing and tokenising (`common/xtoa.c`, `clib/printf.c`, `clib/strtok_r.c`,
  `common/shell.c`).

Code that changes state is modelled by classes and methods on fields and arrays. Each method is proved
against a step function on a value snapshot of the state; the statements about whole runs are lemmas about
those step functions. `dafny verify dfyconfig.toml` checks everything.

## The EEPROM driver

`EepDriver` holds the driver: the job structure, the shared SPI buffers, the engine `processJob` and the entry
points. `EepDevice` is a page-programmed memory whose address counter wraps inside a page. `EepWorld` puts both
into an environment that is free to refuse transmits, to delay, to let a sequence fail after any number of bytes,
and to keep the device busy as long as it likes. A run is any list of such events. The handler reads command,
address and data only when a sequence ends, so a driver that touched them in between would be caught; failed
ASSERTs, transfers outside a buffer and wrong commands are recorded in the flag `sane`, which is proved to stay true.

* `EepDriver.ArmExactly`, `EepSession.InitIsAtRest`, `EepSession.PowerOnSession`: which requests are taken, and what a
  session from power-on does, on conditions about configuration and range alone.
* `EepWrite.WriteIsFaithful`, `EepRead.ReadIsFaithful`, `EepRead.WriteThenRead`, `EepCompare.CompareIsSound`:
  what a result means, for all runs.
* `EepProgress.WriteIsBounded`, `EepProgress.ReadIsBounded`, `EepCompareReads.CompareIsBounded`: which commands a
  job sends. The list covers the range from left to right; no run sends a command twice, and OK means that all were sent.
* `EepProgress.WriteCompletes`, `EepReadEnds.ReadCompletes`, `EepCompareEnds.CompareIsDecided`: within how many
  rounds a job comes to its end when the environment cooperates.

Four findings. Each is proved, and the model follows the code:

* The note on EEP075 (lines 58-60) says that an unequal compare ends as failed. It does not: the branch at lines
  640-644 returns without touching the job, and that state is a fixed point of every event
  (`EepCompare.MismatchIsForever`). `EepCompareEnds.CompareIsDecided` gives both halves: equal ranges end with OK,
  different ranges never end.
* The only way out of that state is `Eep_Cancel`, which does not reset the statics of the compare. The next compare
  job first checks the old contents of the compare buffer. It stays inside the job and its OK means equal bytes if and
  only if the job is at least as long as the stale portion, the device holds that portion at the new address, and the
  device is idle or the job no longer than the portion (`EepCompareStale.StaleCompareExactly`);
  `EepCompareStale.CancelledCompareMisleads` is a whole history that ends with a wrong OK.
* The driver looks at the Write-In-Progress bit after each command but not before the first one. "OK means stored",
  "OK means read" and "OK means equal" hold if and only if the device is idle when the job starts
  (`EepBusyStart.IdleStartExactly`, `EepBusyRead.IdleReadExactly`, `EepCompareExact.IdleCompareExactly`, the last for
  jobs that find `firstTime` set), and a job that fails on its status query can leave it busy
  (`EepBusyStart.FailedJobLeavesBusyDevice`).
* Line 205 records the sequence of a transmit even if the handler refuses it, and the next call reads the result of
  that sequence, which may be left from an older job. "A job fails only if one of its own sequences failed" holds if
  and only if neither its main sequence nor the status query is marked as failed when it starts
  (`EepFailure.FailsOnlyOnFaultExactly`).

Assumptions about the surroundings: base plus size is at most 65536 (addresses are cut to 16 bits, line 246), block
and page sizes are positive, the configured page size is that of the device, the caller's buffer is at least as
long as the job, the handler refuses while a sequence is outstanding, a failed write sequence stores a prefix of its
bytes, and no cancel is called during the runs. The compare buffer has 64 bytes and the instruction bytes are 2, 3 and
5, as in `boards/s32k148_evbq176/config/Eep_Cfg.h` and `boards/zynq_zc702/config/Eep_Cfg.h`.

## FlexRay

`FlexRayCrc` treats bit strings as polynomials over GF(2). The register of the driver is proved to be the remainder
of a division, for every length, and to detect every burst of at most eleven bits and every odd number of errors.
`FlexRayDistance` adds what holds for the twenty bits of a header: one to five wrong bits are always detected, and five
is exact, because six bits (0xB85, the generator) can be changed in every word without changing the CRC.
`FlexRayHeader` carries this over to the unmasked 32-bit register and the packed word of the code, modelled as natural
numbers with explicit shift, or and exclusive or. `FlexRayLayout` and `FlexRayController` model the setup of message
RAM and the transmission of frames.

`slotIsStatic` uses `<` and `getHeaderCrc` uses `>`, so a slot id equal to the number of static slots is laid out as
dynamic but gets the CRC of a static frame. `FlexRayController.ReachableHeaders` says exactly when the stored CRC
matches the stored header. `FlexRayLayout.DisjointExactly` says, in terms of configured lengths and slot ids, exactly
when no two buffers share a byte: sizes use the declared number of static triggers, offsets use the number that
`slotIsStatic` finds.

`FrCurrentLengthSetup` is compared with the length of each frame but never updated. A frame of exactly that length keeps
the length that an earlier frame left in the header. `FlexRayController.SentAsSaidExactly` says for which lengths the
header is right after every history.

The bit field widths of a header (11, 7 and 11 bits for id, length and CRC) are those of the frame format in section
4.2 of the FlexRay Protocol Specification; the declaration of the hardware header type is not part of this model.
Sizes and offsets are natural numbers.

## Queues, circular buffer, sleep

In `TailQueue` a head and an entry are both a `Link`, because the macros cast one to the other. The invariant ties
every forward link, every address of a previous link and the head's last link together. Programs work on a map from
heads to sequences.

`CirqProtocol` interleaves one producer and one consumer that alternate lock and release. The releases in
`include/cirq_buffer.h` change the count without the interrupt lock that push and pop take, so each is a load and a
store here; undisturbed, lock and release are a push or a pop (`CirqBuffer.PushInPlaceAppends`,
`CirqBuffer.PopInPlaceRemoves`). What is promised does not mention the count: held slots lie in the block and apart
from each other, what was taken out is a beginning of what was put in, and the records between are intact. A release
that falls between the load and the store of another leaves a wrong count, and every such run can be continued to a
broken promise. The promise is kept in all states, however the sides settle from there, exactly if no two releases
overlap (`CirqProtocol.InterleavingsResilientExactly`). `CirqBuffer.PeekAddresses` shows that peeking at an offset
equal to the count returns the head slot and not NULL.

`Sleep` compares a deadline modulo 2^32 for equality on every tick; `Sleep.RunRefinesCountdown` shows that this is a
plain countdown in every run, and `Sleep.WakesOnTime` on which tick the event comes.

## Text

`Printf.Vsnprintf` states the rule of the code: the stored count is returned, where section 7.19.6.5 of ISO C99
asks for the full length; a size of 0, or from 2^31 on, is no limit. For a size of 2^31 plus k the counter passes the
smallest int after k characters, which is undefined in C; wrapping is assumed there and, for outputs below 2^31
characters, is the same as counting on. Zero padding goes in front of the sign of a negative number:
`Printf.ZeroPaddedReadsBack` says exactly when such a text is still a numeral. `PrintfFormats` says how a directive
is read, what each conversion prints, and that formats compose. The base check in `xtoa` can never be
true, so the model is for the bases from 2 to 16 for which the digit table suffices. `Strtok` covers strtok_r and the
variant without skipping, which drops an empty last field; `Strtok.WordsOfJoin` and `Strtok.JoinOfWords` determine the
words of a text. More than ten words trip the ASSERT of the shell.

## Model

| member | source | states |
|---|---|---|
| `EepDriver.Eep.constructor` | drivers/Eep/Eep.c:213 | Zeroed memory: not initialised, no job, the compare statics at their initial values |
| `EepDriver.Eep.Init` | drivers/Eep/Eep.c:274-310 | A NULL configuration or a busy driver changes nothing; otherwise configuration, idle status, result OK and default mode are set and job and statics are kept |
| `EepDriver.Eep.AsyncTransmit` | drivers/Eep/Eep.c:195-208 | The sequence is recorded in the job; it becomes outstanding exactly if the handler is free and accepts, and only then is success returned |
| `EepDriver.Eep.Process` | drivers/Eep/Eep.c:465-599 | One call of the job engine equals the recursive reference step; its do-while loop runs at most twice, twice exactly after a status answer, and not at all while a sequence is outstanding or after one has failed |
| `EepDriver.Eep.MainOperation` | drivers/Eep/Eep.c:517-584 | One main operation: chunk limited by block size and rest of page, command, address and buffer set up, position advanced only if the transmit was accepted |
| `EepDriver.Eep.Start` | drivers/Eep/Eep.c:320-439 | Read, write and compare requests: exactly the busy, NULL, address and length errors are rejected and change nothing; otherwise the job is armed with block size by mode |
| `EepDriver.Eep.MainFunction` | drivers/Eep/Eep.c:603-729 | One scheduler call does to the whole driver state what the step function says, for every job type |
| `EepDriver.Eep.MainTransfer` | drivers/Eep/Eep.c:683-721 | One call of a read or write job: run the engine and report OK or failure |
| `EepDriver.Eep.MainCompare` | drivers/Eep/Eep.c:608-681 | One call of a compare job: open the first portion, run the read engine, conclude |
| `EepDriver.Eep.FinishPortion` | drivers/Eep/Eep.c:638-669 | Equal bytes advance the job or end it with OK; different bytes leave the state exactly as it was |
| `EepDriver.Eep.OpenPortion` | drivers/Eep/Eep.c:621-631 | The next portion is the rest of the job cut to the compare buffer |
| `EepDriver.Eep.Cancel` | drivers/Eep/Eep.c:441-449 | A pending job becomes cancelled and the driver idle; the compare statics are not reset |
| `EepDriver.ArmExactly` | drivers/Eep/Eep.c:320-439 | For each of the three kinds: a request is taken if and only if the driver is idle, a buffer is given, the length is at least one and address plus length is at most the size; a rejected one changes nothing, a taken one leaves a pending job for exactly that range, buffer and block size |
| `EepDriver.CancelExactly` | drivers/Eep/Eep.c:441-449 | After a cancel the driver is idle and a pending job is marked as cancelled, every other result and all else stay, and scheduler calls do nothing |
| `EepSession.InitIsAtRest` | drivers/Eep/Eep.c:274-310 | Initialisation of zeroed memory leads to rest with the given configuration and mode: result OK, firstTime set, no sequence marked as failed, and exactly the non-empty ranges of the device may be requested |
| `EepSession.InitAgain` | drivers/Eep/Eep.c:274-310 | A busy driver or a NULL configuration is left alone; otherwise only status, result, mode and configuration change |
| `EepSession.JobIsBusyUntilItEnds` | drivers/Eep/Eep.c:603-729 | In every run of a job the driver is busy with it exactly while the result is pending; after that it is idle with no job |
| `EepSession.TransfersKeepStatics` | drivers/Eep/Eep.c:683-721 | Read and write jobs leave firstTime alone in every run |
| `EepSession.PowerOnSession` | drivers/Eep/Eep.c:274-439 | From zeroed memory, on plain conditions: after initialisation a write to any range of the device completes and changes exactly that range, a read of it completes with the same bytes, and a compare with them ends with OK |
| `EepDevice.ProgramWithinPage` | drivers/Eep/Eep.c:543-563 | On a device whose address counter wraps inside a page, data that fits the rest of the page is stored contiguously and nothing else changes |
| `EepDevice.SpliceAppend` | drivers/Eep/Eep.c:570-573 | Storing a block and then the block behind it is storing both at once |
| `EepDevice.ReadInRange` | drivers/Eep/Eep.c:533-541 | A read that stays in the array returns the stored bytes |
| `EepWorld.RunAppend` | drivers/Eep/Eep.c:603-729 | Running two event lists behind each other is running their concatenation |
| `EepWorld.EndedStays` | drivers/Eep/Eep.c:603-607 | Once a job has ended no event changes the driver |
| `EepWorld.MainAnswers` | drivers/Eep/Eep.c:517-590 | The main case keeps the transfer invariant, or reports success exactly when no byte is left |
| `EepWorld.StatusAnswers` | drivers/Eep/Eep.c:494-504 | Sending the status query keeps the transfer invariant and loses no byte |
| `EepWorld.InitialAnswers` | drivers/Eep/Eep.c:479-490 | The first call of a job keeps the transfer invariant and trips no ASSERT |
| `EepWorld.ResultAnswers` | drivers/Eep/Eep.c:506-515 | A status answer leads back to the query while the device is busy and to the main case otherwise, within the same call |
| `EepWorld.ProcessKeepsEngine` | drivers/Eep/Eep.c:465-599 | Every call of the engine keeps the invariant between job, shared buffers and SPI handler; success is answered only with every byte moved and the device idle |
| `EepWorld.StatusSequenceDone` | drivers/Eep/Eep.c:494-504 | The end of a status query changes the handler state and the status byte only |
| `EepWorld.OwnedBuffersUntouched` | drivers/Eep/Eep.c:479-491 | While a sequence is outstanding a call changes neither command, address, data buffers nor job |
| `EepWrite.ChunkStored` | drivers/Eep/Eep.c:543-573 | Programming the next chunk, clipped to its page, lengthens the stored prefix of the source |
| `EepWrite.WriteSequenceDone` | drivers/Eep/Eep.c:543-563 | The end of a write sequence stores a prefix of its chunk, all of it on success |
| `EepWrite.SpiKeepsWriting` | drivers/Eep/Eep.c:465-599 | The end of any outstanding sequence keeps the write invariant |
| `EepWrite.CallKeepsOutcome` | drivers/Eep/Eep.c:683-721 | A scheduler call on a write job leads to a permitted outcome |
| `EepWrite.RunKeepsOutcome` | drivers/Eep/Eep.c:603-729 | Every run of a write job stays in a permitted outcome |
| `EepWrite.ArmedForWriting` | drivers/Eep/Eep.c:370-402 | A write request by an idle driver for a range inside the device establishes the write invariant |
| `EepWrite.WriteIsFaithful` | drivers/Eep/Eep.c:370-402 | For every run under any refusals, delays and failures: OK only if the range holds exactly the source bytes, the rest is unchanged and the device is idle; a failed job stored a prefix of the source and nothing else; no ASSERT trips |
| `EepRead.ChunkRead` | drivers/Eep/Eep.c:533-573 | Received bytes that continue the prefix lengthen it |
| `EepRead.ReadSequenceDone` | drivers/Eep/Eep.c:533-541 | The end of a read sequence changes only the place of its chunk in the target buffer |
| `EepRead.SpiKeepsReading` | drivers/Eep/Eep.c:465-599 | The end of any outstanding sequence keeps the read invariant and the bytes behind the range |
| `EepRead.ProcessKeepsReading` | drivers/Eep/Eep.c:465-599 | A call of the engine on a read keeps the invariant; success only with the whole range in the buffer |
| `EepRead.RunKeepsReadOutcome` | drivers/Eep/Eep.c:603-729 | Every run of a read job stays in a permitted outcome |
| `EepRead.ReadIsFaithful` | drivers/Eep/Eep.c:320-351 | For every run: the device is never changed, bytes behind the requested length are never touched, OK means the buffer holds the range |
| `EepRead.WriteThenRead` | drivers/Eep/Eep.c:320-402 | A completed write followed by a completed read of the same range returns the written bytes, whatever handler and device did |
| `EepCompare.PortionDoneKeepsOutcome` | drivers/Eep/Eep.c:638-669 | The check of a portion: equal bytes extend the equal prefix, different bytes mean that the whole ranges differ |
| `EepCompare.OpenedCall` | drivers/Eep/Eep.c:634-681 | A call on an opened portion leads to a permitted outcome |
| `EepCompare.MismatchIsFixed` | drivers/Eep/Eep.c:640-644 | After a mismatch every event reproduces the same world |
| `EepCompare.MismatchIsForever` | drivers/Eep/Eep.c:640-644 | After a mismatch no run changes anything: the job stays pending, neither OK nor failed |
| `EepCompare.RunKeepsCompareOutcome` | drivers/Eep/Eep.c:608-681 | Every run of a compare job stays in a permitted outcome |
| `EepCompare.CompareIsSound` | drivers/Eep/Eep.c:404-439 | For every run started with firstTime set: device and caller bytes never change, reads stay in the compare buffer, OK only if all bytes are equal, a mismatch only if they are not |
| `EepProgress.ChunkBound` | drivers/Eep/Eep.c:550-556 | A write of L bytes with block size c needs at most L/c + B + 1 chunks, B being the page boundaries strictly inside the range |
| `EepProgress.TilesTile` | drivers/Eep/Eep.c:517-584 | The commands of a job cover its range from left to right without gap or overlap |
| `EepProgress.TileMovesOnce` | drivers/Eep/Eep.c:517-584 | Such commands move each byte of the range exactly once and no other byte |
| `EepProgress.ReadChunks` | drivers/Eep/Eep.c:517-521 | A read of L bytes with block size c needs L/c commands, rounded up |
| `EepProgress.MainAccounts` | drivers/Eep/Eep.c:517-584 | The main case sends the next command or nothing: commands sent followed by commands left are constant |
| `EepProgress.CallAccounts` | drivers/Eep/Eep.c:465-599 | A useful call lowers the rank (commands left, state), a wasted one raises it by at most one, and commands sent followed by commands left stay the same |
| `EepProgress.WriteRunAccounts` | drivers/Eep/Eep.c:603-729 | Along every run of a write job: commands are sent in order and none twice, all on OK, and useful calls never exceed rank plus wasted calls |
| `EepProgress.ReadRunAccounts` | drivers/Eep/Eep.c:603-729 | The same for every run of a read job |
| `EepProgress.WriteIsBounded` | drivers/Eep/Eep.c:492-597 | Every run of a write job sends a beginning of its command list, the whole list on OK; the list writes each byte once and has at most L/c + B + 1 commands; a pending job has had at most three useful calls per command more than wasted ones |
| `EepProgress.ReadIsBounded` | drivers/Eep/Eep.c:492-597 | Every run of a read job sends a beginning of its command list, the whole list on OK; the list reads each byte once and has L/c commands, rounded up; the same bound on useful calls |
| `EepProgress.SentWhenAccepted` | drivers/Eep/Eep.c:465-599 | A call that finds handler and device ready ends the job or sends a sequence |
| `EepProgress.RoundProgresses` | drivers/Eep/Eep.c:465-599 | A cooperative round ends a write job or lowers its rank |
| `EepProgress.RoundsComplete` | drivers/Eep/Eep.c:603-729 | Enough cooperative rounds end a write job with OK |
| `EepProgress.WriteCompletes` | drivers/Eep/Eep.c:370-402 | Every write by an idle driver of a non-empty range inside the device is completed with the right contents within 3 chunks + 1 cooperative rounds |
| `EepCompareReads.CompareTilesTile` | drivers/Eep/Eep.c:614-669 | The reads of all portions of a compare cover its range from left to right without gap or overlap |
| `EepCompareReads.CompareCounts` | drivers/Eep/Eep.c:614-669 | How many reads that takes: 64/c for each full portion and the rest/c for the last, rounded up |
| `EepCompareReads.EngineAccounts` | drivers/Eep/Eep.c:465-599 | A call of the engine on a portion keeps commands sent followed by commands left |
| `EepCompareReads.PortionAccounts` | drivers/Eep/Eep.c:638-669 | The end of a portion sends nothing: what is outstanding are the reads of the later portions |
| `EepCompareReads.CompareRunAccounts` | drivers/Eep/Eep.c:608-681 | Along every run of a compare job reads are sent in order and none twice, all on OK |
| `EepCompareReads.CompareIsBounded` | drivers/Eep/Eep.c:404-439 | Every run of a compare job sends a beginning of its list of reads, the whole list on OK; the segment loop and the chunk loop together read each byte once |
| `EepReadEnds.FreeCall` | drivers/Eep/Eep.c:465-599 | A call on a free engine is done or has sent a sequence and lowered the rank |
| `EepReadEnds.FreeAgain` | drivers/Eep/Eep.c:465-599 | The sequence completes and leaves the read engine free again |
| `EepReadEnds.RoundOfRead` | drivers/Eep/Eep.c:465-599 | A cooperative round ends a read job or lowers its rank |
| `EepReadEnds.ReadCompletes` | drivers/Eep/Eep.c:320-351 | Every read by an idle driver of a non-empty range inside the device is completed within 3 chunks + 1 cooperative rounds: the range of the device in the buffer, the bytes behind it and the device unchanged |
| `EepCompareEnds.RoundOfPortion` | drivers/Eep/Eep.c:634-669 | A cooperative round decides the compare job or brings it closer to a decision |
| `EepCompareEnds.RoundsDecide` | drivers/Eep/Eep.c:608-681 | A bounded number of cooperative rounds decides a compare job |
| `EepCompareEnds.CompareIsDecided` | drivers/Eep/Eep.c:404-439 | For an idle driver and a non-empty range inside the device: within three rounds per read and one per portion of a cooperative environment, equal ranges end with OK; different ranges leave the job in a mismatch, pending, in a state that no continuation changes |
| `EepBusyStart.FirstCommand` | drivers/Eep/Eep.c:479-490 | The first command of a write job is sent without a look at the Write-In-Progress bit |
| `EepBusyStart.FirstRoundLost` | drivers/Eep/Eep.c:479-490 | A busy device ignores that command and the job goes on as if it had been stored |
| `EepBusyStart.StaleRounds` | drivers/Eep/Eep.c:465-599 | A job that lost its first chunk ends with OK and the device unchanged, if the other bytes were there already |
| `EepBusyStart.BusyStartFails` | drivers/Eep/Eep.c:479-490 | For every busy start there are data and a run that end with OK and wrong contents |
| `EepBusyStart.IdleStartExactly` | drivers/Eep/Eep.c:370-402 | For a resting driver: OK means stored, for all data and all runs, if and only if the device is idle when the job starts |
| `EepBusyStart.FailedJobLeavesBusyDevice` | drivers/Eep/Eep.c:696-721 | Such a busy start is reachable: a job whose status query fails ends while the device is programming |
| `EepBusyRead.FirstReadGarbled` | drivers/Eep/Eep.c:479-490 | The first read command of a job on a busy device puts whatever bytes the device delivers into the buffer, and the job goes on |
| `EepBusyRead.GarbledRounds` | drivers/Eep/Eep.c:465-599 | Such a job ends with OK and keeps the wrong first byte |
| `EepBusyRead.IdleReadExactly` | drivers/Eep/Eep.c:320-351 | For a resting driver: OK means that the buffer holds the range, for all buffers and all runs, if and only if the device is idle when the job starts |
| `EepFailure.OwnProcess` | drivers/Eep/Eep.c:465-599 | While neither sequence of a job is marked as failed, a call of its engine does not answer failure, marks neither and waits for one of the two again |
| `EepFailure.RunNotFailing` | drivers/Eep/Eep.c:603-729 | If neither sequence of a job is marked as failed, no run without a failing sequence ends with failure |
| `EepFailure.OldMainFails` | drivers/Eep/Eep.c:195-208 | The main sequence marked as failed by an older job: a refused transmit and one more call end the job with failure, nothing sent |
| `EepFailure.OldQueryFails` | drivers/Eep/Eep.c:195-208 | The status query marked as failed by an older job: the first chunk goes out, then a refused query ends the job with failure |
| `EepFailure.FailsOnlyOnFaultExactly` | drivers/Eep/Eep.c:195-208 | For read, write and compare (with firstTime set), all data and all runs: a job fails only if one of its sequences fails, if and only if neither its main sequence nor the status query is marked as failed when it starts |
| `EepTwins.TwinStep` | drivers/Eep/Eep.c:603-729 | A driver cannot tell two devices apart that agree where it reads |
| `EepTwins.TrackedStep` | drivers/Eep/Eep.c:608-681 | A compare job never goes back to an address below what it has read |
| `EepTwins.TwinRun` | drivers/Eep/Eep.c:608-681 | Whole runs of a compare job are the same on devices that agree on what it has still to read |
| `EepTwins.CompletesOnTwin` | drivers/Eep/Eep.c:608-681 | A compare that would complete on one device completes on every device that agrees with it on the bytes still to be read |
| `EepCompareExact.PortionCommand` | drivers/Eep/Eep.c:479-490 | The first read of every portion is sent without a look at the Write-In-Progress bit |
| `EepCompareExact.GarbledIsComparing` | drivers/Eep/Eep.c:614-636 | A compare job whose portion starts on a busy device goes on, after its first read, like a compare with a device that holds the bytes delivered |
| `EepCompareExact.BusyPortionCompletes` | drivers/Eep/Eep.c:614-669 | So a portion that starts with noise its data agree with lets the job end with OK |
| `EepCompareExact.BusyCompareFails` | drivers/Eep/Eep.c:479-490 | For every busy start there are data other than those of the device and a run that ends with OK |
| `EepCompareExact.IdleCompareExactly` | drivers/Eep/Eep.c:404-439 | For a resting driver with firstTime set: OK means equal, for all data and all runs, if and only if the device is idle when the job starts |
| `EepCompareStale.StaleCompareCall` | drivers/Eep/Eep.c:614-645 | With the statics of a cancelled mismatch the first call of a compare job checks the old contents of the compare buffer |
| `EepCompareStale.StaleCompareSound` | drivers/Eep/Eep.c:614-669 | If an idle device holds these contents at the new address, no run leaves the caller bytes and OK means equal |
| `EepCompareStale.StaleWholeSound` | drivers/Eep/Eep.c:638-669 | The same on a busy device if the job is as long as the stale portion |
| `EepCompareStale.StaleShortJob` | drivers/Eep/Eep.c:638-645 | A job shorter than the stale portion makes the first call compare beyond the job |
| `EepCompareStale.StaleCompareFails` | drivers/Eep/Eep.c:614-669 | If an idle device does not hold the stale portion, there are data other than those of the device and a run that ends with OK |
| `EepCompareStale.StaleFails` | drivers/Eep/Eep.c:614-669 | The same for a busy device |
| `EepCompareStale.StaleBusyFails` | drivers/Eep/Eep.c:614-669 | Even if a busy device holds the stale portion, a longer job can end with OK on other data |
| `EepCompareStale.StaleCompareExactly` | drivers/Eep/Eep.c:404-439 | For a resting driver with the statics of a cancelled mismatch, device busy or idle, job of any length: in all runs on all data the compare stays inside the job and OK means equal, if and only if the job is at least as long as the stale portion, the device holds that portion at the new address, and the device is idle or the job no longer than the portion |
| `EepCompareStale.MismatchThenCancel` | drivers/Eep/Eep.c:441-449 | From every resting driver with firstTime set, comparing different bytes and cancelling leads to such statics |
| `EepCompareStale.CancelledCompareMisleads` | drivers/Eep/Eep.c:404-449 | The whole history: compare a range with other bytes, cancel, and a compare of a second place, whose first byte does not occur in that range, ends with OK on data that are not there |
| `FlexRayCrc.RegisterIsRemainder` | drivers/Fr/Fr_mpc5xxx.c:853-871 | For bit strings of every length the register holds the remainder of r x^n + data x^11 by x^11+x^9+x^8+x^7+x^2+1 over GF(2) |
| `FlexRayCrc.RemainderIsUnique` | drivers/Fr/Fr_mpc5xxx.c:77-79 | Quotient and remainder of that division are unique |
| `FlexRayCrc.RegisterInjective` | drivers/Fr/Fr_mpc5xxx.c:853-871 | Equal further bits cannot make different registers equal |
| `FlexRayCrc.ShortInputs` | drivers/Fr/Fr_mpc5xxx.c:853-871 | At most eleven bits that lead to equal registers differ exactly where the registers did |
| `FlexRayCrc.BurstDetected` | drivers/Fr/Fr_mpc5xxx.c:853-871 | Strings that differ, but only inside a window of at most eleven bits, have different registers |
| `FlexRayCrc.StepParity` | drivers/Fr/Fr_mpc5xxx.c:858-869 | Each step changes the parity of the register by exactly the input bit |
| `FlexRayCrc.RegisterParity` | drivers/Fr/Fr_mpc5xxx.c:853-871 | The parity of the register is that of the start value and the data |
| `FlexRayCrc.OddErrorDetected` | drivers/Fr/Fr_mpc5xxx.c:853-871 | Strings that differ in an odd number of bits have different registers |
| `FlexRayDistance.RegisterXor` | drivers/Fr/Fr_mpc5xxx.c:853-871 | The register is linear: the difference of two registers is the register of the differences |
| `FlexRayDistance.ZeroRegisterIsMultiple` | drivers/Fr/Fr_mpc5xxx.c:853-871 | A string that leads from a zero register to a zero register is a multiple of the generator |
| `FlexRayDistance.TimesAt` | drivers/Fr/Fr_mpc5xxx.c:77-79 | Each coefficient of a product with the generator is the sum of six coefficients of the factor |
| `FlexRayDistance.ProductIsHeavy` | drivers/Fr/Fr_mpc5xxx.c:77-79 | A multiple of the generator of twenty bits is zero or has at least six ones |
| `FlexRayDistance.FewErrorsDetected` | drivers/Fr/Fr_mpc5xxx.c:853-871 | Strings of up to twenty bits that differ in one to five places have different registers |
| `FlexRayDistance.SixErrorsMissed` | drivers/Fr/Fr_mpc5xxx.c:853-871 | Five is exact: every string of twelve bits or more has another one with the same register six places away |
| `FlexRayDistance.HeaderErrorsDetected` | drivers/Fr/Fr_mpc5xxx.c:845-871 | Header words that differ in one to five of their twenty bits have different CRCs |
| `FlexRayDistance.HeaderErrorMissed` | drivers/Fr/Fr_mpc5xxx.c:845-871 | For every header word, changing the six bits 0xB85 does not change the CRC |
| `FlexRayHeader.RegStepIsStep` | drivers/Fr/Fr_mpc5xxx.c:858-869 | One iteration on the unmasked 32-bit register is one step of the eleven-bit register, whatever the upper bits hold |
| `FlexRayHeader.RegAfterIsRegister` | drivers/Fr/Fr_mpc5xxx.c:853-871 | After any number of iterations the low eleven bits of the unmasked register are the eleven-bit register |
| `FlexRayHeader.UnmaskedRegister` | drivers/Fr/Fr_mpc5xxx.c:853-871 | For every length the low eleven bits of the unmasked register are the remainder of 0x1A x^n + data x^11 |
| `FlexRayHeader.ComputeCrc` | drivers/Fr/Fr_mpc5xxx.c:853-871 | The loop over bits 19 down to 0 computes the CRC function of the data word |
| `FlexRayHeader.HeaderCrcIsRemainder` | drivers/Fr/Fr_mpc5xxx.c:853-871 | The returned value has eleven bits and is the remainder for the twenty header bits |
| `FlexRayHeader.PackIsWord` | drivers/Fr/Fr_mpc5xxx.c:845-848 | For an 11-bit id and a 7-bit length the or of the shifted fields is their sum: they do not overlap |
| `FlexRayHeader.PackRoundTrip` | drivers/Fr/Fr_mpc5xxx.c:845-848 | The four fields can be read back from the packed word if and only if the id has 11 bits and the length 7 |
| `FlexRayHeader.LowBitsChangeCrc` | drivers/Fr/Fr_mpc5xxx.c:845-871 | Words that differ only in their low seven bits have different CRCs |
| `FlexRayHeader.LengthChangesCrc` | drivers/Fr/Fr_mpc5xxx.c:842-871 | Changing only the payload length changes the CRC |
| `Arith.SpanIsProduct` | drivers/Fr/Fr_mpc5xxx.c:542-545 | The bytes of k equal regions are the product that the driver computes |
| `FlexRayLayout.Align8IsLeast` | drivers/Fr/Fr_mpc5xxx.c:96 | Alignment gives the least multiple of eight that is not below its argument |
| `FlexRayLayout.OffsetOfTrigger` | drivers/Fr/Fr_mpc5xxx.c:643-657 | In terms of the configuration: where the payload of a trigger starts, behind the headers of eight bytes for each buffer and the two-byte words of the payloads before it |
| `FlexRayLayout.SameKindApart` | drivers/Fr/Fr_mpc5xxx.c:643-660 | Payloads of the same kind follow each other without overlap |
| `FlexRayLayout.StaticInSegment` | drivers/Fr/Fr_mpc5xxx.c:643-646 | In a consistent configuration static payloads stay ahead of the dynamic ones and of the shadow buffers |
| `FlexRayLayout.DynamicInSegment` | drivers/Fr/Fr_mpc5xxx.c:649-657 | In a consistent configuration dynamic payloads stay in their segment |
| `FlexRayLayout.ConsistentIsDisjoint` | drivers/Fr/Fr_mpc5xxx.c:542-660 | In every consistent configuration header table, payloads and shadow buffers are pairwise disjoint and end at the computed end |
| `FlexRayLayout.InconsistentOverlaps` | drivers/Fr/Fr_mpc5xxx.c:542-660 | Every other configuration has two overlapping regions |
| `FlexRayLayout.DisjointExactly` | drivers/Fr/Fr_mpc5xxx.c:542-748 | In terms of the configuration: the bytes [offset, offset + 2 * length) of all message and shadow buffers lie between the header table and the computed end and share no byte, if and only if as many triggers have a slot id below the static slots as are declared static, or all have and a static payload is not longer than an aligned dynamic one; kinds without payload bytes need no room |
| `FlexRayController.Controller.constructor` | drivers/Fr/Fr_mpc5xxx.c:542-545 | Tables of the right sizes for a configuration |
| `FlexRayController.Controller.Setup` | drivers/Fr/Fr_mpc5xxx.c:540-748 | Every trigger gets its own buffer, the header of its configuration and its offset, the shadow buffers follow, and the offsets written share no byte exactly if the declared number of static triggers is right |
| `FlexRayController.Controller.SetupBuffers` | drivers/Fr/Fr_mpc5xxx.c:553-704 | The loop over the triggers, with its two counters, gives all of them header, index and offset |
| `FlexRayController.Controller.SetupBuffer` | drivers/Fr/Fr_mpc5xxx.c:629-700 | The loop body sets up its own trigger and disturbs no other |
| `FlexRayController.Controller.WriteHeader` | drivers/Fr/Fr_mpc5xxx.c:669-700 | The header written for a trigger; all others unchanged |
| `FlexRayController.Controller.ComputeHeaderCrc` | drivers/Fr/Fr_mpc5xxx.c:830-872 | The CRC of the configured flags, id and length, on the packed word |
| `FlexRayController.Controller.SetupShadow` | drivers/Fr/Fr_mpc5xxx.c:722-748 | The four shadow buffers behind the payloads; payload entries unchanged |
| `FlexRayController.Controller.TransmitTxLPdu` | drivers/Fr/Fr.c:407-453 | Accepted exactly for a valid index and a length within the configured one; headers change as specified and only then; a resizable frame of another length than that of the setup gets half its length into the header |
| `FlexRayController.SetupKeepsInvariant` | drivers/Fr/Fr_mpc5xxx.c:669-698 | Setup establishes the header invariant |
| `FlexRayController.ResizeKeepsInvariant` | drivers/Fr/Fr_mpc5xxx.c:796-819 | Changing the length of a dynamic frame keeps stored CRC and stored header consistent |
| `FlexRayController.RequestsKeepInvariant` | drivers/Fr/Fr.c:437-450 | Any sequence of transmissions keeps the header invariant |
| `FlexRayController.StaticHeaderMatches` | drivers/Fr/Fr_mpc5xxx.c:669-698 | A header on the static length matches its CRC if and only if its configured length is the static payload length |
| `FlexRayController.ReachableHeaders` | drivers/Fr/Fr.c:437-450 | In every state reachable by setup and any transmissions: preamble indicator and id are those configured, the length is half that of the last transmission that sets it, and the stored CRC is that of the word with bit 19 for a key slot used for sync, bit 18 for one used for startup, stored id and stored length, if and only if the slot id is above the static slots or the configured length is the static payload length |
| `FlexRayController.StaticHeaderCrc` | drivers/Fr/Fr_mpc5xxx.c:836-848 | Headers of the other slots have the CRC of the static payload length |
| `FlexRayController.StoredLength` | drivers/Fr/Fr.c:437-450 | Along every sequence of transmissions the stored length is half that of the last one that sets it |
| `FlexRayController.SentAsSaidExactly` | drivers/Fr/Fr.c:437-450 | For a resizable frame and an accepted length: after every history the header says the length that is sent, if and only if it is not the setup length, or the frame is too short for any other length |
| `TailQueue.Empty` | include/sys/queue.h:358 | True exactly for the empty queue |
| `TailQueue.First` | include/sys/queue.h:360 | The first entry, NULL if there is none |
| `TailQueue.Next` | include/sys/queue.h:414 | The successor, NULL at the last entry |
| `TailQueue.Last` | include/sys/queue.h:411-412 | The last entry, NULL if there is none, through the link viewed as a head |
| `TailQueue.Prev` | include/sys/queue.h:416-417 | The predecessor, NULL at the first entry, through the link viewed as a head |
| `TailQueue.Init` | include/sys/queue.h:372-375 | An empty queue |
| `TailQueue.InsertHead` | include/sys/queue.h:394-402 | The entry in front of the others, all links consistent |
| `TailQueue.InsertTail` | include/sys/queue.h:404-409 | The entry behind the others, all links consistent |
| `TailQueue.InsertAfter` | include/sys/queue.h:377-385 | The entry right behind the named one |
| `TailQueue.InsertBefore` | include/sys/queue.h:387-392 | The entry right in front of the named one, without use of the head |
| `TailQueue.Remove` | include/sys/queue.h:419-426 | The queue without the entry, which keeps its own links |
| `TailQueue.Concat` | include/sys/queue.h:349-356 | The first queue followed by the second, which is left empty |
| `TailQueue.Foreach` | include/sys/queue.h:362-365 | Visits the entries in order |
| `TailQueue.ForeachReverse` | include/sys/queue.h:367-370 | Ends, and visits exactly the reverse |
| `TailQueue.Perform` | include/sys/queue.h:377-426 | Any enabled insert or removal acts as on the mathematical sequence |
| `TailQueue.PerformCreate` | include/sys/queue.h:372-375 | Initialising a head that is in no queue makes it an empty queue and leaves every other queue alone |
| `TailQueue.PerformOn` | include/sys/queue.h:377-426 | An enabled insert or removal on one of any number of separate queues acts on its sequence and leaves every other queue alone |
| `TailQueue.PerformJoin` | include/sys/queue.h:349-356 | Concatenating any queue to any other appends, empties, and leaves every further queue alone |
| `TailQueue.CallSeparate` | include/sys/queue.h:349-426 | Every call keeps all queues separate |
| `TailQueue.PerformCall` | include/sys/queue.h:349-426 | An initialisation, a call or a concatenation acts as on the map from heads to sequences |
| `TailQueue.PerformAll` | include/sys/queue.h:349-426 | Every well-formed sequence of initialisations, inserts, removals and concatenations on any number of queues refines the same calls on mathematical sequences |
| `CirqBuffer.StepIsNextSlot` | common/cirq_buffer.c:151-154 | The wrap by pointer equality always fires: one step leads to the next slot, cyclically |
| `CirqBuffer.SlotsApart` | common/cirq_buffer.c:73-81 | Two different slots share no byte |
| `CirqBuffer.StoreAtSlot` | common/cirq_buffer.c:149 | Filling a slot changes that record and no other |
| `CirqBuffer.PushAppends` | common/cirq_buffer.c:141-159 | A push on a buffer that is not full appends the record; on a full one it changes nothing |
| `CirqBuffer.PopRemovesOldest` | common/cirq_buffer.c:171-187 | A pop returns and removes the oldest record; on an empty buffer it changes nothing |
| `CirqBuffer.WalkIsSlot` | common/cirq_buffer.c:243-249 | k steps from the tail lead to the k-th slot behind it |
| `CirqBuffer.PeekAddresses` | common/cirq_buffer.c:238-251 | Peek(k) addresses the k-th oldest record for k below the count, answers with the head for k equal to the count, and NULL exactly above it or if empty |
| `CirqBuffer.PushInPlaceAppends` | common/cirq_buffer.c:201-212 | Lock, fill and release appends the record and counts it; a full buffer hands out nothing and stays |
| `CirqBuffer.PopInPlaceRemoves` | common/cirq_buffer.c:225-236 | Lock and release hands out and removes the oldest record and counts it out; an empty buffer hands out nothing and stays |
| `CirqBuffer.RunsRefineFifo` | common/cirq_buffer.c:141-236 | Every sequence of pushes and pops, with a copy or by lock and release, gives the answers and contents of a bounded first-in first-out queue |
| `CirqBuffer.InitRunsRefineFifo` | common/cirq_buffer.c:73-81 | From an initialised buffer every such sequence gives the answers of an empty queue of that size |
| `CirqBuffer.Buffer.constructor` | common/cirq_buffer.c:73-81 | An empty buffer over the given block |
| `CirqBuffer.Buffer.Advance` | common/cirq_buffer.c:151-154 | The pointer one record on, back at the start if it meets the end |
| `CirqBuffer.Buffer.PushRecord` | common/cirq_buffer.c:141-159 | Return value and new state of a push |
| `CirqBuffer.Buffer.PopRecord` | common/cirq_buffer.c:171-187 | Return value, record and new state of a pop |
| `CirqBuffer.Buffer.LockPush` | common/cirq_buffer.c:201-212 | The head slot is handed out and the head moves, unless full |
| `CirqBuffer.Buffer.LockPop` | common/cirq_buffer.c:225-236 | The tail slot is handed out and the tail moves, unless empty |
| `CirqBuffer.Buffer.ReleasePush` | include/cirq_buffer.h:62-64 | The 32-bit count grows by one, nothing else changes |
| `CirqBuffer.Buffer.ReleasePop` | include/cirq_buffer.h:66-68 | The 32-bit count shrinks by one, wrapping at zero, nothing else changes |
| `CirqBuffer.Buffer.PeekRecord` | common/cirq_buffer.c:238-251 | The walk from the tail, NULL if empty or beyond the count |
| `CirqProtocol.WholePushRelease` | include/cirq_buffer.h:62-64 | Load and store of the producer with nothing between are the release of the buffer: one more record |
| `CirqProtocol.WholePopRelease` | include/cirq_buffer.h:66-68 | Load and store of the consumer with nothing between are the release of the buffer: one record less |
| `CirqProtocol.StepKeepsInv` | common/cirq_buffer.c:201-236 | Every step of producer or consumer keeps the protocol invariant, except a store on top of another store since its load |
| `CirqProtocol.LayoutKeepsPromise` | common/cirq_buffer.c:201-236 | Head, tail and held slots in their places imply the promise: held slots lie in the block and apart, records taken out are a beginning of the records put in, the records between are intact and apart from the slot being filled |
| `CirqProtocol.CleanKeepsPromise` | common/cirq_buffer.c:201-236 | A run without a store on top of another keeps the promise in all its states |
| `CirqProtocol.TornStoreIsFatal` | include/cirq_buffer.h:62-68 | Every store on top of another can be continued to a state in which the promise is broken |
| `CirqProtocol.TornRunIsFatal` | include/cirq_buffer.h:62-68 | So can every run that contains one |
| `CirqProtocol.ResilientExactly` | include/cirq_buffer.h:62-68 | From every state with the invariant: the promise is kept in all states of a run, however the two sides settle from there, if and only if no two releases ever overlap |
| `CirqProtocol.InterleavingsResilientExactly` | include/cirq_buffer.h:62-68 | The same for every interleaving from an initialised buffer with records of at least one byte |
| `CirqProtocol.InterleavingsTorn` | include/cirq_buffer.h:62-68 | Every interleaving keeps the promise if it has no store on top of another; if it has one, some beginning of it can be continued to a broken promise |
| `CirqProtocol.EveryInterleavingIsSafe` | common/cirq_buffer.c:201-236 | With releases that are not interrupted, every interleaving of one producer and one consumer that alternate lock and release keeps the promise in all its states |
| `CirqProtocol.TornRelease` | include/cirq_buffer.h:62-68 | For every buffer of two or more records: after two pushes, the second release torn by a pop, three records come out where two were put in |
| `Sleep.Service.constructor` | common/sleep.c:24-26 | Zeroed statics |
| `Sleep.Service.SleepInit` | common/sleep.c:28-36 | All entries become inactive |
| `Sleep.Service.SleepFor` | common/sleep.c:38-53 | The entry of a valid task is armed with the deadline modulo 2^32, zero ticks counting as one |
| `Sleep.Service.OnTick` | common/sleep.c:64-73 | One tick: due entries are switched off and their events set, in order |
| `Sleep.StepRefines` | common/sleep.c:38-73 | Every step on the deadline table is the step of a plain countdown, with the same events |
| `Sleep.InitRefines` | common/sleep.c:28-36 | After initialisation the table stands for a countdown with nobody asleep |
| `Sleep.RunRefinesCountdown` | common/sleep.c:38-73 | Every run sets the same events at the same steps as the countdown, across any number of wraps |
| `Sleep.TickOf` | common/sleep.c:66-73 | A tick sets at most one event per task, exactly when its counter has come down to one |
| `Sleep.WakesOnTime` | common/sleep.c:38-73 | In every state reachable from zeroed statics: a task that sleeps n ticks and is not armed again gets its event, with its mask, on exactly the n-th later tick (the first, if n is zero) and on no other |
| `Sleep.SilentAfterInit` | common/sleep.c:28-36 | In every reachable state: after initialisation a task gets no event until it is sent to sleep again |
| `Numerals.Xtoa` | common/xtoa.c:33-64 | The text of the value and a terminator are stored; nothing behind them changes |
| `Numerals.WriteDigits` | common/xtoa.c:48-50 | The digit loop stores the digits, least significant first |
| `Numerals.Terminate` | common/xtoa.c:57-63 | The terminator behind the reversed text, the rest unchanged |
| `Numerals.ReverseInPlace` | common/xtoa.c:58-63 | The two-pointer loop is a full reversal of the prefix |
| `Numerals.LowFirstValue` | common/xtoa.c:48-50 | The digits, reversed, are digits of the base and read as the value |
| `Numerals.TextRoundTrip` | common/xtoa.c:33-64 | A strict reader, which accepts an optional sign and at least one digit of the base and nothing else, reads the text as the signed value, for every base from 2 to 16 |
| `Numerals.NoLeadingZero` | common/xtoa.c:105-108 | For every 32-bit integer: a sign exactly if it is negative, then digits whose first is zero only in the numeral 0 |
| `Numerals.NoNul` | common/xtoa.c:48-57 | The text holds no terminator |
| `Numerals.ItoaRoundTrip` | common/xtoa.c:105-108 | The strict reader reads itoa back exactly for every 32-bit integer, the most negative included |
| `Numerals.TextCharacters` | common/xtoa.c:48-55 | The text consists of lower-case digits and a sign |
| `Numerals.Itoa` | common/xtoa.c:105-108 | A string that the strict reader reads back as the number is stored with its terminator; nothing behind it changes |
| `Numerals.Ultoa` | common/xtoa.c:92-94 | The same for unsigned numbers |
| `Numerals.DigitCount` | common/xtoa.c:48-50 | A value below base^k has at most k digits |
| `Numerals.FitsTwelve` | clib/printf.c:363-375 | Any 32-bit value in base 10 or 16 fits twelve characters with sign and terminator |
| `Printf.Stream.constructor` | clib/printf.c:403-410 | The output starts at the buffer with the size as counter, negative from 2^31 on |
| `Printf.Stream.EmitChar` | clib/printf.c:249-268 | The character is stored unless the counter is down to one; stored text is the kept part of everything emitted |
| `Printf.Stream.EmitPad` | clib/printf.c:343-355 | count copies of the pad character are emitted |
| `Printf.Stream.EmitText` | clib/printf.c:338-359 | The characters of a string are emitted in order |
| `Printf.Stream.EmitString` | clib/printf.c:326-361 | The string padded to the width, on the right if left-aligned, else on the left |
| `Printf.Stream.EmitInt` | clib/printf.c:363-375 | The padded numeral, prepared in the twelve character buffer without leaving it |
| `Printf.Stream.EmitDirective` | clib/printf.c:466-508 | What the conversion prints, and the arguments it leaves |
| `Printf.Stream.PrintItem` | clib/printf.c:412-512 | One plain character, "%%" or conversion |
| `Printf.Stream.Print` | clib/printf.c:403-513 | The emitted text is the unlimited output of the format |
| `Printf.Stream.Finish` | clib/printf.c:514-520 | Terminator behind the kept text, number of stored characters returned, the rest of the buffer untouched |
| `Printf.ScanWidth` | clib/printf.c:443-459 | The width digits, collected in wBuff |
| `Printf.ScanModifiers` | clib/printf.c:442-464 | Width and length modifier up to the deciding character |
| `Printf.ScanDirective` | clib/printf.c:422-508 | The parsed conversion, with a precision restarting the width |
| `Printf.Vsnprintf` | clib/printf.c:221-226 | For every well-formed format, arguments and size: the first min(length, n-1) characters of the unlimited output and a terminator are stored, nothing behind them is touched, the stored count is returned; sizes 0 and from 2^31 on do not limit |
| `Printf.KeptNext` | clib/printf.c:249-268 | One more character is kept exactly if the counter is not down to one |
| `Printf.TextIsCString` | clib/printf.c:363-375 | The numeral in the local buffer is read back up to its terminator |
| `Printf.ZeroPaddedReadsBack` | clib/printf.c:346-359 | A zero-padded %d is read back as the number if and only if the number is not negative or the width is at most the length of its text |
| `PrintfFormats.WidthIsRead` | clib/printf.c:446-455 | The decimal text of a width below 1000 has at most three digits, no leading zero, and is read back as the width |
| `PrintfFormats.DirectiveIsRead` | clib/printf.c:412-508 | A percent sign, a flag or none, a decimal width below 1000 or none, a length modifier or none and a conversion character are read, wherever they stand in a format, as one conversion with exactly that flag, width and character |
| `PrintfFormats.TextSpells` | clib/printf.c:412-464 | What a programmer writes: percent sign, flag, decimal width, length modifier and conversion character behind each other |
| `PrintfFormats.PrecisionIsRead` | clib/printf.c:501-505 | A precision is read as a new width and the one before it is forgotten |
| `PrintfFormats.IntPrints` | clib/printf.c:471-490 | %d prints the number in base ten, %u, %x and %p print it modulo 2^32 in base ten, sixteen and sixteen: the strict reader reads the text back, which is in shortest form and stands at the left end with blanks behind it or at the right end behind blanks or zeros, as the flag says, in max(width, length) characters |
| `PrintfFormats.StringPrints` | clib/printf.c:491-500 | %s prints the string, or (null), in the same way |
| `PrintfFormats.CharPrints` | clib/printf.c:467-470 | %c prints the one character whose code is the argument modulo 256, whatever the width |
| `PrintfFormats.OtherPrints` | clib/printf.c:506-508 | Any other conversion prints nothing and takes no argument |
| `PrintfFormats.PlainPrints` | clib/printf.c:412-420 | Other characters print themselves, two percent signs print one |
| `PrintfFormats.PiecesOfPrefix` | clib/printf.c:412-513 | The pieces of two formats behind each other are those of the first followed by those of the second |
| `PrintfFormats.OutputAppend` | clib/printf.c:412-513 | Pieces behind each other print behind each other, the later ones on the arguments left |
| `PrintfFormats.RenderAppend` | clib/printf.c:403-513 | Printing f + g is printing f and then g on the arguments that f leaves |
| `Strtok.StrtokR` | clib/strtok_r.c:32-90 | Token, saved cursor and cut string of one call, with or without skipping; NULL and no change if there is no string |
| `Strtok.StrtokAt` | clib/strtok_r.c:45-83 | The same from a given place |
| `Strtok.ScanDelims` | clib/strtok_r.c:45-58 | The skipping loop stops at the first character that is no delimiter |
| `Strtok.ScanToken` | clib/strtok_r.c:70-83 | The scanning loop stops at the first delimiter or the terminator |
| `Strtok.WordsOfJoin` | clib/strtok_r.c:32-90 | However words are joined by non-empty separators, with or without separators at the ends, they are the words of the text |
| `Strtok.JoinOfWords` | clib/strtok_r.c:32-90 | Every text is its words joined by such separators, so its words are determined |
| `Strtok.FieldsOfJoin` | clib/strtok_r.c:32-90 | Fields joined by single delimiters are the fields of the text, except an empty last one |
| `Strtok.TokenTakesPart` | clib/strtok_r.c:32-85 | One call takes the first part off the text and leaves the others, or says that there is none |
| `Strtok.AllCallsReturnParts` | clib/strtok_r.c:32-90 | For every string and delimiter set, successive calls return exactly the maximal delimiter-free runs (or the fields) in order and then NULL, all readable at the end |
| `Shell.NextWord` | common/shell.c:142-151 | One call of strtok_r keeps the split of the line into words found and words left |
| `Shell.CollectArgs` | common/shell.c:290-299 | The loop fills argv with all words, or trips the ASSERT exactly if there are more than ten |
| `Shell.RunCmd` | common/shell.c:251-308 | The outcome for every line, with its words separated by blanks, tabs and newlines: NULL or no word, 40 characters or more, unknown first word, more than ten words; otherwise argv leads to exactly the words |

## Left out

- Cancel during a job, notification callbacks and error reporting of the EEPROM driver: foreign calls and observations only.
- The optional sanity check of Eep_Init on the write enable latch: a build option that only asserts.
- Eep_Erase and Eep_SetMode: the first only validates and arms nothing, the second sets a field that is a parameter here.
- Page sizes of the device other than the configured one, and addresses above 16 bits: the driver cuts them off.
- What a compare job does after it has compared beyond its range (`EepCompareStale.StaleShortJob`): the C code reads foreign memory, the model only clears `sane`.
- Statics left by a cancel in the middle of a read: the outstanding sequence belongs to no job.
- FlexRayController.Controller.TransmitTxLPdu: the checks for an initialised controller, controller index, NULL data and missing partition, and the payload copy, are not modelled.
- FlexRayController.Controller.Setup: message buffer control registers, filters and wrap-around of 32-bit sizes are not modelled.
- FlexRay protocol configuration registers, busy waits, state commands, timers: register access with one-line facts.
- Tearing of a single load or store of the count, and compiler reordering, in the lock protocol.
- Allocation variants of the circular buffer and NULL buffer pointers: wrappers.
- Waiting for and clearing the alarm event, and the error hook of the sleep service: calls of SetEvent are returned as a list.
- Formats that end inside a conversion, widths of more than three digits, missing or mismatched arguments, outputs of 2^31 characters or more: the C code has no defined behaviour for them.
- Printing to a FILE, the other members of the printf family: the same loop with another sink.
- Bases outside 2 to 16 in number formatting: they run off the digit table or do not end.
- The call of a shell command's function, line editing, history, help and prompts: user interface.
- drivers/Fls, drivers/CanTrcv, drivers/Wdg, common/tcf, loggers, consoles, RAM file system, boards and scripts: near duplicates, wrappers, configuration or input and output that would only add easy members.
