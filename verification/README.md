# EmuCoreC verification

A Dafny model of the parts of EmuCoreC, an Android port of the RPCS3 emulator, whose correctness is
not visible from any single function: the save-state slots, the lock-free and waiting primitives, the
checksums and the base57 codec, the memory allocators, the address range vector, and two stream and
path algorithms.

How the model is built:

- Code that runs on several threads is a state machine. Each atomic operation of the source is one
  step, every interleaving is a run, and the theorems hold in every state of every run. Fields that
  only record what happened (pushed items, reports, pages) are never read by a step.
- Code that updates an object or a buffer is a class or a method with a loop, proved against a
  specification function. The theorems are about that function.
- The emulator, the operating system and the file system are environments: they may do or refuse
  anything their interface allows; a file system that refuses nothing is a choice of its own. SHA-256 is an arbitrary function.
- Machine integers are explicit. 64-bit sums wrap in `Alignment`, `JitArena`, `SectionAllocator` and
  `Base57`, the two bit fields of the condition variable saturate as in the source, and addresses wrap
  at the maximum of the address type in `AddressRanges`.

| module | models |
|---|---|
| `SlotStore`, `Integrity` | crash-safe replacement of a numbered save-state slot and its integrity manifest |
| `SaveOperation` | the save/load operation protocol against close, boot and install |
| `LockFreeQueue`, `LockFreeBunch` | `lf_queue` and `lf_bunch` at the level of nodes, links and compare-exchanges |
| `CondVariable` | `cond_variable`: waiters and signals packed into one 32-bit word |
| `CrcBits`, `Crc`, `CrcDivision` | the bit-by-bit and the table-driven CRC, reflected or not, of every width, and the polynomial division they compute |
| `Positional`, `Base57` | the base57 encoder and decoder |
| `Alignment`, `JitArena` | `utils::align`, and the JIT arena that packs position and committed size into one counter |
| `SectionAllocator` | `MemoryManager1::allocate` with its quarter-page rule |
| `AddressRanges` | `address_range_vector`: merge and exclude in place |
| `GatherStream`, `ParentPath` | the gathered stream and `get_parent_dir_view` |

Promises that do not hold for all inputs are proved with the exact condition under which they hold,
and with an example of the failure:

- `UndoFinalize` and `Finalize` are documented as always inverse to each other. They are inverse
  exactly when the bits above the CRC width are the ones the masking produces (`Crc.UndoExample`,
  `Crc.UndoInvertsIff`, `Crc.FinalizeInvertsIff`). The multi-part promise survives exactly for
  parameters that fit the width (`Crc.MultiPartIff`), and the result is the CRC exactly if a reflected
  one starts with a word that fits (`CrcDivision.CalculateIsCrcIff`).
- The JIT arena grants a request so large that the rounding wraps to a small sum
  (`JitArena.WrappingSizeIsGranted`, `JitArena.ReserveExact`, `JitArena.DishonestIsUnsound`).
- A block with an alignment of at least 512 KiB that starts in a partly used first page gets memory
  that nobody committed (`SectionAllocator.HazardRun`, `SectionAllocator.IntactIsSoundIff`), and so
  does a small block after a failed commit (`SectionAllocator.FailedCommitRun`,
  `SectionAllocator.GrantIsSoundIff`).
- `merge` covers too much when a range touches the new one only around the end of the address space,
  and then leaves the vector inconsistent, which breaks what later calls rely on, unless every valid
  entry was joined. `exclude` leaves it inconsistent when it cuts the middle out of the range of all
  addresses (`AddressRanges.WrapExamples`, `AddressRanges.MergeOutcome`,
  `AddressRanges.ExcludeOutcome`).
- The gathered stream reads short when a non-empty fragment follows an empty one, except an empty very
  first one (`GatherStream.GapExample`, `GatherStream.ReadsLikeConcatIffIndexable`,
  `GatherStream.NextReadsLikeConcatIffIndexable`).
- The worker that builds caches may act on the emulator while a save or load is under way
  (`SaveOperation.CacheBuildOverlaps`, `SaveOperation.CacheBuildIsExclusiveIff`).

## Model

| member | source | states |
|---|---|---|
| `SlotStore.Store.CaptureSlot` | android/src/save_states.cpp:191-245 | In every state the disk goes through, so after a crash at any point, the slot looks as before or holds exactly the captured bytes and is accepted, and no other file differs. Success means the new bytes are in place, failure that a load sees what it saw before; a slot file its manifest does not authenticate is never replaced. If the system refuses nothing, the capture succeeds exactly when the state was written, the path is an existing file named something.SAVESTAT.zst of a size that can be hashed, and the slot is empty or authentic; then the manifest is the single new record and the obsolete files are gone. |
| `SlotStore.SuffixIs` | android/src/save_states.cpp:197 | The suffix test accepts exactly the names made of some base and .SAVESTAT.zst. |
| `SlotStore.AcceptedForever` | android/src/save_states.cpp:191-245 | Over any run of captures into any slots, crashes, failures and outside changes that leave the files of this slot alone, a slot that was accepted once stays accepted, and its bytes are the first payload or one captured into it, whole. |
| `SlotStore.Store.Session` | android/src/save_states.cpp:191-245 | The code as such a run: any sequence of captures, each of which may crash in any state the disk goes through, and outside changes, keeps an accepted slot accepted with one of those payloads. |
| `SlotStore.Store.CaptureOrCrash` | android/src/save_states.cpp:191-245 | Whichever state a crash leaves behind, the slot is as it was or holds the captured bytes, accepted, and no other file differs. |
| `SlotStore.EventKeepsAccepted` | android/src/save_states.cpp:191-245 | One such event keeps an accepted slot accepted; a capture into another slot does not touch it. |
| `SlotStore.ManifestFirst` | android/src/save_states.cpp:222-224 | Publishing the two-record manifest before the payload changes nothing a load can see. |
| `SlotStore.PayloadNext` | android/src/save_states.cpp:225-227 | With that manifest in place, the rename of the payload switches the slot to the new bytes, accepted. |
| `SlotStore.ThenCompact` | android/src/save_states.cpp:228-233 | Replacing the manifest by the single new record keeps the new slot accepted. |
| `SlotStore.ThenRemove` | android/src/save_states.cpp:234-239 | Removing any file of an obsolete variant keeps the new slot accepted. |
| `SlotStore.Store.Publish` | android/src/save_states.cpp:205-243 | The same guarantees for the part from the copied temporary file to the finished slot, with the exact condition for success when nothing is refused. |
| `SlotStore.Store.PublishRecords` | android/src/save_states.cpp:222-243 | The same, once the list of accepted records is chosen. |
| `SlotStore.Store.TidyUp` | android/src/save_states.cpp:228-243 | Through compaction and removals the new slot stays accepted; if nothing is refused the manifest ends as the single record and no obsolete file is left. |
| `SlotStore.Store.Compact` | android/src/save_states.cpp:228-243 | Whatever fails in it, every state on the way holds the new slot, accepted. |
| `SlotStore.Store.RemoveObsolete` | android/src/save_states.cpp:234-239 | The new slot stays accepted through each removal. |
| `SlotStore.Store.CopyPayload` | android/src/save_states.cpp:133-154 | On success the temporary file holds exactly the source and the record is its size and digest; on failure, possibly half-way through a write, only the temporary file differs; if nothing is refused it succeeds exactly for a source that can be hashed. |
| `SlotStore.Store.VerifyPayload` | android/src/save_states.cpp:156-170 | Accepts only a payload whose record is in its manifest, and without an I/O error exactly such a payload. |
| `SlotStore.Store.WriteIntegrity` | android/src/save_states.cpp:115-131 | Every state on the way shows the old manifest or the whole new one; other temporary files are untouched. |
| `SlotStore.Store.OpenTemp` | core/Utilities/File.cpp:2954-2991 | A new, empty temporary file under an unused name, or no change. |
| `SlotStore.Store.CommitTemp` | core/Utilities/File.cpp:3003-3167 | The temporary file replaces its destination in one step, or nothing changes. |
| `Integrity.ParseOfSerialize` | android/src/save_states.cpp:90-131 | Reading a written manifest gives the records back. |
| `Integrity.SerializeOfParse` | android/src/save_states.cpp:90-131 | Every accepted manifest is byte for byte what would be written for its records. |
| `Integrity.Write` | android/src/save_states.cpp:115-130 | The buffer filled in place is the manifest of the records; only lists of one or two records are written. |
| `Integrity.WriteRecord` | android/src/save_states.cpp:121-127 | One record lands at its place, the rest of the buffer is unchanged. |
| `Integrity.ReadSize` | android/src/save_states.cpp:108-109 | Or-ing the eight shifted bytes gives the little-endian number. |
| `Integrity.Read` | android/src/save_states.cpp:90-113 | The loop returns the parsed records, none for any malformed file. |
| `Integrity.ManifestLayout` | android/src/save_states.cpp:86-131 | The manifest byte for byte: the text EMUCSH01, the count, and for each record eight size bytes, lowest first, before the digest. |
| `SaveOperation.StopIsHonoured` | android/src/save_states.cpp:247-276 | If a stop request was absorbed by an operation, then once that operation is reported its finish has killed the emulator, the report came after the request, and a load is not reported as a success. |
| `SaveOperation.StopBeforeStart` | android/src/save_states.cpp:321-325 | An operation asked to stop before its start callback looked is finished as a failure and never kills the game. |
| `SaveOperation.DirectActionsAreExclusive` | android/src/emucorec-android.cpp:2669-2692 | Close, boot and install act only when nothing is pending, every accepted operation has been reported and continuous mode is off. |
| `SaveOperation.CacheBuildIsExclusiveIff` | android/src/emucorec-android.cpp:1757-1772 | The cache-building worker, which takes the mutex on a stopped emulator without asking, is alone exactly when busy() would have been false at that moment. |
| `SaveOperation.CacheBuildOverlaps` | android/src/emucorec-android.cpp:1757-1786 | A run in which it acts between the kill and the resume of a pending save. |
| `SaveOperation.OneOperationAtATime` | android/src/save_states.cpp:298-372 | While the lifecycle mutex is free both handles agree; an accepted operation is reported if and only if it is not the pending one; continuous mode is off when nothing is pending. |
| `SaveOperation.ReportedOnce` | android/src/save_states.cpp:247-258 | No operation is reported twice. |
| `SaveOperation.SaveSuccessIsTruthful` | android/src/save_states.cpp:247-258 | When a save is reported as a success, the slot on disk is accepted at that moment and holds exactly the bytes that capture_slot copied, in an earlier step, from a state file that had been written. |
| `SaveOperation.SaveReportIff` | android/src/save_states.cpp:247-411 | A save is reported as a success if and only if capture_slot returned true for it and afterwards either the run notification with its recorded identifier arrived or a stop was seen right after the capture. |
| `SaveOperation.PublishedSaveSucceeds` | android/src/save_states.cpp:335-411 | The half a user sees: a captured save that runs again, or is stopped right after the capture, is never reported as a failure. |
| `SaveOperation.FinishIsReported` | android/src/save_states.cpp:247-276 | Whoever begins a finish holds the mutex until the report, which is the success the finish began with, except that a stop turns a load into a failure. |
| `SaveOperation.NextOnce` | android/src/save_states.cpp:298-372 | Every step keeps that each operation captures at most once, and that what is remembered of the capture is its result. |
| `SaveOperation.CaptureKeepsDisk` | android/src/save_states.cpp:340-343 | After the capture, a slot marked as published is accepted with the published bytes. |
| `SaveOperation.CapturesKeeps` | android/src/save_states.cpp:340-343 | The capture step changes no operation but the pending one and keeps the invariant, with the recorded bytes those that were copied. |
| `SaveOperation.AsksKeeps` | android/src/emucorec-android.cpp:2748-2753 | The entry points keep the invariant with the stop and busy tests repeated under the mutex. |
| `SaveOperation.LoadSuccessIsTruthful` | android/src/save_states.cpp:401-411 | A successful load report implies a run notification with the recorded identifier, raised after the emulation found by the request had stopped, and no stop absorbed at any time. |
| `SaveOperation.LoadReportIff` | android/src/save_states.cpp:247-411 | A load is reported as a success if and only if the run notification with its recorded identifier arrived and no stop had been requested when its finish retired it. |
| `SaveOperation.AbsorbedStays` | android/src/save_states.cpp:413-419 | A stop accepted by defer_stop stays recorded for its operation in every later state. |
| `SaveOperation.NextKeepsInvariant` | android/src/save_states.cpp:247-439 | Every step of every callback, notification and entry point keeps the invariant behind these theorems. |
| `SaveOperation.AfterTaskKeeps` | android/src/save_states.cpp:278-296 | A posted callback, in whatever order callbacks run, keeps the invariant and changes no operation but the pending one. |
| `SaveOperation.CompletesKeeps` | android/src/save_states.cpp:421-439 | The completion notification keeps the invariant, whether or not the game stopped. |
| `LockFreeQueue.LinearizableFifo` | core/Utilities/lockless.h:403-507 | In every reachable state the drained batches in order, then the linked items oldest first, are exactly the arguments of the pushes that succeeded, in the order of their compare-exchanges; the arguments are read off the calls alone. |
| `LockFreeQueue.PushedIsArguments` | core/Utilities/lockless.h:473-491 | Each push inserts its own argument, whatever runs in between. |
| `LockFreeQueue.PushReportsEmptyQueue` | core/Utilities/lockless.h:473-491 | push returns true exactly when it made an empty queue non-empty: once for the first item of each batch. |
| `LockFreeQueue.PeekSeesItems` | core/Utilities/lockless.h:403-409 | A consumer goes on to take the list exactly when it is not empty. |
| `LockFreeQueue.ExchangeTakesAll` | core/Utilities/lockless.h:403-424 | The exchange takes every linked item and leaves an empty queue. |
| `LockFreeQueue.SliceDeliversBatch` | core/Utilities/lockless.h:376-424 | Walking the links of a slice gives the unused rest of its batch, oldest first. |
| `LockFreeQueue.SliceEndsWithBatch` | core/Utilities/lockless.h:376-424 | The next item of a slice is the next of its batch, and the slice ends exactly with the batch. |
| `LockFreeQueue.NoDanglingNode` | core/Utilities/lockless.h:376-424 | No thread dereferences a freed node, and no two threads the same node, although addresses are reused. |
| `LockFreeQueue.NextKeepsInvariant` | core/Utilities/lockless.h:403-507 | Every atomic step of push and of a drain keeps the heap invariant. |
| `LockFreeQueue.ReverseLinks` | core/Utilities/lockless.h:403-424 | The in-place reversal turns a linked list into the reversed list of the same nodes. |
| `LockFreeBunch.PushIfKeepsPairwise` | core/Utilities/lockless.h:562-592 | In every reachable state the argument of each push_if that succeeded satisfies the predicate against the argument of every earlier insertion, also of a plain one. |
| `LockFreeBunch.ListIsCalls` | core/Utilities/lockless.h:546-592 | The list holds exactly the arguments of the calls that succeeded, in order, each inserted by the kind of call it came from. |
| `LockFreeBunch.RejectionIsJustified` | core/Utilities/lockless.h:574-584 | push_if rejects only an argument that fails against that of an insertion that had succeeded, and it was never linked. |
| `LockFreeBunch.NextKeepsInvariant` | core/Utilities/lockless.h:546-592 | Every step of push and push_if keeps the list and what each inserter has checked so far. |
| `CondVariable.NoLostWakeUp` | core/Utilities/cond.cpp:5-55 | If a wake runs while a thread waits, the word differs from the value that thread saved until its own cleanup, also when the signal count is saturated. |
| `CondVariable.SignalsOnlyGrow` | core/Utilities/cond.cpp:14-26 | While a thread waits its saved value stays and the signal count never falls. |
| `CondVariable.RegistersIff` | core/Utilities/cond.h:20-34 | A thread that wants to wait does, exactly unless 8191 threads wait already or the signals are saturated. |
| `CondVariable.WakesAreCounted` | core/Utilities/cond.cpp:28-42 | Every wake that finds a waiter adds one signal, until the count is saturated. |
| `CondVariable.NotifySkipsOnlyWithoutWaiters` | core/Utilities/cond.h:76-92 | The test before a notify skips it exactly when nobody is registered. |
| `CondVariable.IdleWordIsZero` | core/Utilities/cond.cpp:14-26 | The waiter bits count the waiters, and the word is 0 exactly when there is none. |
| `CondVariable.StepWhileWaiting` | core/Utilities/cond.cpp:28-42 | One step of any thread: a wake raises the signal count above every saved one. |
| `CondVariable.Cond.AddWaiter` | core/Utilities/cond.h:20-34 | Counts one waiter and returns the new word, or returns 0 and changes nothing, exactly when a field is full. |
| `CondVariable.Cond.Wake` | core/Utilities/cond.cpp:30-42 | Counts one signal exactly unless the word is 0 or saturated; the waiters stay. |
| `CondVariable.Cond.RemoveWaiter` | core/Utilities/cond.cpp:14-26 | Counts one waiter less; the last one clears the signals. |
| `Crc.TableAgreesWithBitwise` | core/Utilities/CRC.h:605-766 | The table-driven remainder equals the bit-by-bit one modulo the width mask, for every byte string, start value and parameter set; for reflected input in every bit. |
| `Crc.TableCrcAgrees` | core/Utilities/CRC.h:438-513 | So the finalized CRCs are equal. |
| `CrcDivision.ForwardDivides` | core/Utilities/CRC.h:644-707 | Without reflection the remainder is the remainder of polynomial division over GF(2): the start times x to the number of data bits plus the data times x to the width is a multiple of the generator plus what the code returns, for every width, data and start. |
| `CrcDivision.ReflectedDivides` | core/Utilities/CRC.h:621-643 | With reflection the same, read from the other end of register and bytes, for every start, also one wider than the CRC. |
| `CrcDivision.ReflectedIsForward` | core/Utilities/CRC.h:605-707 | For a start that fits the width the reflected remainder is the reversed forward remainder of the mirrored bytes. |
| `CrcDivision.DivisionIsUnique` | core/Utilities/CRC.h:605-707 | Quotient and remainder are determined by dividend and generator, so the two lemmas above leave no other result. |
| `CrcDivision.FeedDivides` | core/Utilities/CRC.h:655-672 | The register loop divides, byte by byte. |
| `CrcDivision.CalculateIsCrcIff` | core/Utilities/CRC.h:438-560 | For a CRC of at least a byte, Calculate returns the CRC of all data (the remainder, reversed for reflected output, plus the final word) if and only if the initial value of a reflected CRC fits the width. |
| `Crc.MultiPartIsOneShot` | core/Utilities/CRC.h:438-513 | Continuing from the CRC of one part over the next gives the CRC of both, bit by bit and through the table, for width-fitting parameters. |
| `Crc.MultiPartIff` | core/Utilities/CRC.h:438-513 | For a CRC of at least a byte, the multi-part promise holds for all data if and only if, where the input is reflected, the initial value and a reflected-out final XOR fit the width. |
| `Crc.ResumeFromCrc` | core/Utilities/CRC.h:456-467 | For parameters that fit the width, the remainder recovered from a CRC is as good as the original one, modulo the width mask; `MultiPartIff` shows that the fit is needed. |
| `Crc.UndoInvertsIff` | core/Utilities/CRC.h:545-592 | UndoFinalize after Finalize gives the remainder back exactly when its bits above the width are those the undoing puts there; the bits below always come back. |
| `Crc.FinalizeInvertsIff` | core/Utilities/CRC.h:545-592 | Finalize after UndoFinalize gives the CRC back exactly when it fits the width. |
| `Crc.UndoExample` | core/Utilities/CRC.h:545-592 | A concrete word with a bit above the width for which neither order gives it back. |
| `Crc.ShiftsRightLinear` | core/Utilities/CRC.h:621-643 | The reflected bit loop is linear over exclusive or. |
| `Crc.ShiftsLeftLinear` | core/Utilities/CRC.h:644-702 | The forward bit loop is linear over exclusive or. |
| `Crc.RemainderRight` | core/Utilities/CRC.h:621-643 | The nested loops of the reflected branch compute the specification. |
| `Crc.RemainderLeft` | core/Utilities/CRC.h:644-702 | The nested loops of both forward branches compute the specification. |
| `Crc.CalculateRemainder` | core/Utilities/CRC.h:605-707 | The whole function computes the specified remainder, lifting CRCs shorter than a byte. |
| `Crc.MakeEntry` | core/Utilities/CRC.h:410-422 | One table entry is the masked remainder of its byte, lifted for short CRCs. |
| `Crc.InitTable` | core/Utilities/CRC.h:396-426 | The loop that ends when the byte wraps fills all 256 entries with theirs. |
| `Crc.TableRound` | core/Utilities/CRC.h:724-766 | One byte through the table leaves the register as eight rounds of the bit loop do: in every bit for reflected input, in the bits that count otherwise. |
| `Crc.TableIndex` | core/Utilities/CRC.h:735-758 | The shifted and combined register, cut to a byte, is the byte that is about to leave the register combined with the input. |
| `Crc.CalculateRemainderByTable` | core/Utilities/CRC.h:720-766 | The loop computes the specified table-driven remainder. |
| `CrcBits.Reflect` | core/Utilities/CRC.h:523-535 | The bit loop reverses the low bits and clears the others. |
| `CrcBits.ReflectedTwice` | core/Utilities/CRC.h:523-535 | Reflecting twice is masking. |
| `CrcBits.ToBitsAt` | core/Utilities/CRC.h:621-702 | Bit i of a byte is the one of weight 2^i. |
| `Base57.EncodeInjective` | core/Utilities/StrFmt.cpp:128-173 | Different byte strings, of equal or different lengths, have different encodings. |
| `Base57.TailSuffices` | core/Utilities/StrFmt.cpp:134-138 | The digits kept for a short last group separate all such groups. |
| `Base57.EncodeLength` | core/Utilities/StrFmt.cpp:137-142 | The length of the encoding is the size the formatter reserves. |
| `Base57.SizeGrows` | core/Utilities/StrFmt.cpp:134-142 | A longer input has a longer encoding. |
| `Base57.DecodeOfEncode` | core/Utilities/StrFmt.cpp:128-299 | Decoding an encoding gives the bytes back when their number is a multiple of 8. |
| `Base57.EncodeOfDecode` | core/Utilities/StrFmt.cpp:128-299 | Encoding a decoding gives the string back, for accepted strings whose length is a multiple of 11. |
| `Base57.RejectedIff` | core/Utilities/StrFmt.cpp:175-299 | A string is rejected exactly when some group has a foreign character or a value of at least 2^64. |
| `Base57.DecodedSize` | core/Utilities/StrFmt.cpp:175-299 | An accepted string gives 8 bytes for each group, also for a short last one. |
| `Base57.WriteGroup` | core/Utilities/StrFmt.cpp:144-171 | The inner loop writes the digits of one group inside the output and nothing before it. |
| `Base57.Format` | core/Utilities/StrFmt.cpp:128-173 | The formatter appends exactly the encoding: the character at position 11g + j is the one of the alphabet string at index (v / 57^(10-j)) mod 57, where v is the big-endian number of the g-th padded group. |
| `Base57.EncodedChar` | core/Utilities/StrFmt.cpp:144-171 | The same for the specified encoding. |
| `Base57.LetterIsAt` | core/Utilities/StrFmt.cpp:166 | The d-th character that is written is the d-th of the alphabet string. |
| `Base57.ValueIsIndex` | core/Utilities/StrFmt.cpp:200-249 | The decoder gives a character its index in that string, and rejects exactly the characters not in it. |
| `Base57.OverflowTest` | core/Utilities/StrFmt.cpp:263-279 | The division and subtraction test of the decoder detects exactly the sums that leave 64 bits. |
| `Base57.NextMultiplier` | core/Utilities/StrFmt.cpp:186-196 | The 64-bit multiplier runs through the powers of 57 without wrapping. |
| `Base57.GroupNumber` | core/Utilities/StrFmt.cpp:186-281 | The digit loop accepts a group exactly when it is valid, and returns its value. |
| `Base57.FromString` | core/Utilities/StrFmt.cpp:175-299 | The decoder loop returns the specified bytes, nothing for a rejected string: byte 8g + i is (v / 256^(7-i)) mod 256, where v is the base-57 number of the indices of the g-th group. |
| `Base57.DigitIsIndex` | core/Utilities/StrFmt.cpp:198-249 | The digits of an accepted group are the indices of its characters in the alphabet string. |
| `Base57.DecodedByte` | core/Utilities/StrFmt.cpp:175-299 | The same for the specified decoding. |
| `Alignment.AlignSpec` | core/rpcs3/util/asm.hpp:426-431 | Without wrap-around the result is the least multiple of the alignment not below the value. |
| `Alignment.AlignIsLeast` | core/rpcs3/util/asm.hpp:426-431 | No multiple of the alignment lies between the value and the result. |
| `Alignment.AlignIsMask` | core/rpcs3/util/asm.hpp:426-431 | For a power of two the rounding is the bit mask the source computes, wrap-around included. |
| `JitArena.ReturnedBlocksAreSound` | core/Utilities/JITASM.cpp:142-215 | In every interleaving of requests of any size, as long as none wraps and is granted for it, every block handed out is aligned, inside the 1 GiB subrange, in committed memory, and shares no address with another one. |
| `JitArena.OutOfMemoryIsPermanent` | core/Utilities/JITASM.cpp:163-193 | After one out-of-memory failure, and as long as none has wrapped, a later non-empty request fails exactly when it does not wrap. |
| `JitArena.ReserveExact` | core/Utilities/JITASM.cpp:163-187 | For every size and every power of two, the first atomic update moves the position past an aligned block inside the subrange, or fails and remembers it, exactly when the test of the code refuses the request or neither position nor size exceeds the subrange. |
| `JitArena.RefusedIffNoRoom` | core/Utilities/JITASM.cpp:163-176 | A request that does not wrap is refused if and only if no aligned block of that size with an aligned end fits between the position and the end of the subrange. |
| `JitArena.ReservedIsLowest` | core/Utilities/JITASM.cpp:163-187 | A granted block lies at the first possible place, the position moves no further than needed, and memory is committed only when needed, up to the next 2 MiB. |
| `JitArena.SmallIsHonest` | core/Utilities/JITASM.cpp:163-187 | Which is so for sizes up to 1 GiB and alignments up to 2^62, at every position the counter can hold in a run. |
| `JitArena.DishonestIsUnsound` | core/Utilities/JITASM.cpp:163-187 | And the first request of a run for which it is not so gets a block that does not lie inside the subrange. |
| `JitArena.WrappingSizeIsGranted` | core/Utilities/JITASM.cpp:163-187 | A concrete request that is granted although it does not fit. |
| `JitArena.AcknowledgeSpec` | core/Utilities/JITASM.cpp:201-208 | The second atomic update raises the committed size to at least its own end and keeps the position. |
| `JitArena.NextKeepsInvariant` | core/Utilities/JITASM.cpp:142-215 | Every step of every interleaving but such a reservation keeps the invariant. |
| `SectionAllocator.Section.Allocate` | core/Utilities/JITLLVM.cpp:354-422 | A request is unsupported exactly if its size is 0 or over 256 MiB or its alignment over 2 MiB, and out of memory exactly if the new position passes 512 MiB; where the block lies and what is committed, for every state, also after failed commits. A granted block that ends inside 256 MiB is sound (inside the section, apart from all earlier blocks, committed) exactly when its part below the next unit boundary was committed before; while no commit has failed, a granted block is sound exactly when it ends inside 256 MiB and is not a block with an alignment of at least 512 KiB that starts in a partly used first page not committed as a whole by the first block. |
| `SectionAllocator.SupportedIff` | core/Utilities/JITLLVM.cpp:361-367 | Exactly the sizes from 1 byte to 256 MiB with alignments up to 2 MiB pass the first test, however the rounding wraps. |
| `SectionAllocator.GrantIsSoundIff` | core/Utilities/JITLLVM.cpp:371-422 | The first half of that for one call and every committed set. |
| `SectionAllocator.IntactIsSoundIff` | core/Utilities/JITLLVM.cpp:371-422 | The second half for one call, and that everything the next call relies on is kept. |
| `SectionAllocator.GrantIsCoveredIff` | core/Utilities/JITLLVM.cpp:394-419 | Whatever was committed before, the two commit stages leave a block committed exactly when its part below the next unit boundary was. |
| `SectionAllocator.BoundaryIff` | core/Utilities/JITLLVM.cpp:394-419 | While no commit has failed, that part was committed before exactly outside the large-alignment case, which needs no knowledge of the committed memory. |
| `SectionAllocator.GrantFirstPage` | core/Utilities/JITLLVM.cpp:394-419 | What is committed of the first page: all of it if the first block had an alignment of at least 512 KiB, otherwise nothing from the next quarter boundary on; every call keeps this. |
| `SectionAllocator.SmallAlignment` | core/Utilities/JITLLVM.cpp:394-419 | In the first page the stages commit whole quarters from the next quarter boundary, then whole pages. |
| `SectionAllocator.NoFirstStage` | core/Utilities/JITLLVM.cpp:409-419 | Otherwise they commit whole pages from the next page boundary. |
| `SectionAllocator.HazardRun` | core/Utilities/JITLLVM.cpp:354-422 | For every small first block and every second block with an alignment between a quarter and a whole page, two successful calls end with a block nobody committed. |
| `SectionAllocator.FailedCommitRun` | core/Utilities/JITLLVM.cpp:389-403 | When the very first commit fails, a second small block in the same quarter is granted with nothing committed. |
| `SectionAllocator.Section.Commit` | core/Utilities/JITLLVM.cpp:392-419 | Exactly which commits fail for which refusals of the system, and what is committed in each case. |
| `SectionAllocator.Section.Grant` | core/Utilities/JITLLVM.cpp:369-421 | The part of allocate after the size and alignment test. |
| `SectionAllocator.Place` | core/Utilities/JITLLVM.cpp:361-376 | The block lies at the first aligned place at or after the position, and the new position is less than one alignment after its end. |
| `AddressRanges.RangeVector.Merge` | core/Utilities/address_range.h:307-363 | The vector covers exactly the union if and only if no entry touches the new range only around the address wrap; it stays consistent if and only if that is so or every valid entry is joined. |
| `AddressRanges.RangeVector.Exclude` | core/Utilities/address_range.h:374-454 | The vector covers exactly the difference, and is consistent exactly unless the exclusion cuts the middle out of the range of all addresses. |
| `AddressRanges.MergeOutcome` | core/Utilities/address_range.h:319-351 | The same for a merge that found touching entries. |
| `AddressRanges.AddOutcome` | core/Utilities/address_range.h:348-360 | The same for a merge that reuses a free slot or appends. |
| `AddressRanges.ExcludeOutcome` | core/Utilities/address_range.h:374-454 | The same for the loop of exclude. |
| `AddressRanges.WrappedCoversTooMuch` | core/Utilities/address_range.h:138-143 | An entry joined around the wrap makes the vector cover an address that neither side had. |
| `AddressRanges.WrappedConsistentIff` | core/Utilities/address_range.h:319-351 | A join around the wrap grows to all addresses, so the vector is consistent afterwards exactly when no valid entry was left out. |
| `AddressRanges.TouchesIffAdjacent` | core/Utilities/address_range.h:117-143 | Two ranges touch exactly when they hold addresses that are equal or neighbours on the circle of addresses. |
| `AddressRanges.SplitEntry` | core/Utilities/address_range.h:429-450 | Splitting an entry into head and tail, the tail in a free or new slot, keeps the loop invariant. |
| `AddressRanges.WrapExamples` | core/Utilities/address_range.h:138-143 | For 16-bit addresses: a wrap join that stays consistent, one that does not, and an exclusion that splits all addresses. |
| `AddressRanges.RangeVector.Join` | core/Utilities/address_range.h:319-346 | The loop of merge: the first touching entry grows over the others, which become invalid. |
| `AddressRanges.RangeVector.Cut` | core/Utilities/address_range.h:410-450 | One overlapping entry is dropped, truncated or split. |
| `AddressRanges.RangeVector.CheckConsistency` | core/Utilities/address_range.h:466-493 | The nested loops accept exactly the vectors in which no two valid entries touch. |
| `GatherStream.ReadAtIsSlice` | core/Utilities/File.cpp:2880-2912 | read_at gives the slice of the concatenation, clipped at its end, at every position and size. |
| `GatherStream.ReadsLikeConcatIffIndexable` | core/Utilities/File.cpp:2807-2912 | All reads do so exactly for the lists in which no non-empty fragment follows an empty one other than the very first. |
| `GatherStream.NextReadsLikeConcatIffIndexable` | core/Utilities/File.cpp:2842-2878 | The same exact condition for the sequential read, wherever the fragments stand. |
| `GatherStream.FullReadIsShort` | core/Utilities/File.cpp:2807-2912 | For any other list the read of everything comes back short. |
| `GatherStream.NextReadIsShort` | core/Utilities/File.cpp:2842-2878 | For any other list the sequential read of everything comes back short, too. |
| `GatherStream.GapExample` | core/Utilities/File.cpp:2807-2912 | The smallest such list: two single bytes around an empty fragment, of which a read of both does not find the second. |
| `GatherStream.ReadOnGathers` | core/Utilities/File.cpp:2855-2873 | While the keys are right, the loop of read gives what the loop of read_at gives. |
| `GatherStream.ReadsCompose` | core/Utilities/File.cpp:2880-2912 | Two consecutive reads give what one larger read gives. |
| `GatherStream.Stream.constructor` | core/Utilities/File.cpp:2807-2816 | The loop builds the table of end offsets and the total size. |
| `GatherStream.Stream.ReadAtOffset` | core/Utilities/File.cpp:2880-2912 | The method returns the specified bytes for every list of fragments. |
| `GatherStream.Stream.Read` | core/Utilities/File.cpp:2842-2878 | For every list of fragments the method does what the specification says, failed seeks included; for an indexable list it returns the slice at the stream position and moves the position past it. |
| `GatherStream.Stream.ReadLoop` | core/Utilities/File.cpp:2855-2873 | The loop of read, for every list. |
| `GatherStream.GatherLoop` | core/Utilities/File.cpp:2892-2907 | The loop of read_at. |
| `ParentPath.ParentDirView` | core/Utilities/File.cpp:979-1028 | For every absolute path and level, the result is a beginning of the path that resolves to the directory that many levels up, staying at the root; the loop ends although its counter may grow. |
| `ParentPath.RoundMeans` | core/Utilities/File.cpp:986-1016 | One round preserves what is still to be removed from the meaning of the view. |
| `ParentPath.StepOver` | core/Utilities/File.cpp:1005-1015 | Passing a name, a dot or a double dot changes the counter by exactly what it means. |
| `ParentPath.LastNameMeans` | core/Utilities/File.cpp:998-1015 | Taking the last name off a view undoes its effect on the resolved path. |
| `ParentPath.Round` | core/Utilities/File.cpp:986-1016 | The round as code: a shorter view with the same meaning. |
| `ParentPath.Trim` | core/Utilities/File.cpp:988-996 | Trailing delimiters go, the meaning stays. |

## Left out

- SectionAllocator.Section.Allocate: says where a block lies but not whether it is sound once the position is past 256 MiB, or when a call passes that end after a failed commit; such blocks are taken modulo the section size and may or may not meet earlier ones.
- CrcDivision.CalculateIsCrcIff: only for CRCs of at least a byte; for shorter ones a fitting initial value suffices but is not always needed.
- Crc.MultiPartIff: only for CRCs of at least a byte; for shorter ones fitting parameters suffice but are not always needed.
- SaveOperation.SaveSuccessIsTruthful: assumes that nobody else changes the files of the slot between its capture and the report; all other files may change at any time.
- The emulator core, LLVM, asmjit, mbedtls and the virtual memory layer are not part of this model; their effects are step choices or parameters.
- JNI glue, surfaces, audio, USB, input, progress dialogs and the install routines: input and output around unseen code.
- Durability order of file system writes: a rename is atomic and stays, sync calls are not modelled.
- Directories, the text form of slot paths and the ownership test of slot paths: paths are abstract and distinct.
- An exception thrown by the code that reports an operation's result.
- The order of the main-thread dispatcher: callbacks may run in any order, which includes its queue order.
- Weak memory: each atomic operation is one step of a sequentially consistent run.
- The futex wait behind the condition variable, timeouts and spurious wake-ups: a wait may end at any time.
- The JIT arena in the build that can overcommit, where nothing is committed.
- Base57 decoding of short groups: it always yields 8 bytes and does not round trip.
- Relative paths in get_parent_dir_view: only the shape of the result is stated.
- Seeking in the gathered stream, and fragments whose contents change or whose reads fail.
- address_range_vector::contains, lf_queue::apply and lf_queue::pop_all_reversed.
- The CRC parameter catalogue, Timer, date_time, cheat files, gyro input and instruction decoding: easy members only.
- Mutual exclusion of the lifecycle and stop mutexes is assumed; core/Utilities/mutex.cpp is not part of this model.
