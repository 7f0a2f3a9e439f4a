# NVRAM_runner — a Dafny model of its crash-consistent core

NVRAM_runner runs user functions so that a crash at any instant can be recovered from. Each thread keeps a
**persistent stack** of call frames in a memory-mapped non-volatile region. A frame records the function name,
its marshalled arguments and an 8-byte answer slot. Frames start on 64-byte cache-line boundaries. Each frame ends
in one marker byte: the top frame carries STACK_END, every other frame carries FRAME_END. A **RAM stack** mirrors
the durable one so that callers need not re-read the region.

- `do_call` seeds the caller's answer slot (optional), pushes a frame, dispatches to the normal or the recovery
  version of a registered function, and pops the frame.
- `write_answer`, `read_answer` and `read_current_answer` move a callee's result through its caller's slot.
- `do_restoration` reads the stack back after a crash and runs the recovery version of every frame above the
  root, from the top down.
- `exec_task` decodes a CAS task and runs `cas`. In recovery it reuses an answer that already reached the stack.
- `cas_internal` / `cas_recover_internal` implement a recoverable compare-and-swap. The register word packs the
  last owner's thread number with the value, and a thread-notification matrix lets a thread learn after a crash
  that its CAS took effect.
- `pmem_allocator` is a persistent block allocator. The last byte of each block is a marker (ALLOCATED,
  HEAP_END or FREED). A restart rebuilds the allocator from those markers.
- Two Python checkers decide whether a recorded CAS history is consistent. `check.py` is an Euler-path degree
  test. `check_restricted.py` is a chain walk for histories whose CAS targets are distinct.

The earlier, unaligned revision of the stack (`code/persistent_stack/call.cpp` and `ram_stack.cpp`) is modelled
on its own in `legacy_stack.dfy`.

How the model is built:

- The region is an `array<byte>` and the RAM stack is a `class RamStack` with a `frames` sequence. Each
  operation that changes them is a `method` whose `ensures` ties the new state to a specification function of
  the old one. The properties are proved as lemmas about those functions.
- A flush writes nothing, so it is not modelled. A crash is modelled as the region image between two writes.
  The lemmas show what `read_stack` or the allocator's recovery scan makes of such an image.
- Integers in the region are little-endian: 2-byte lengths in the aligned stack, 8-byte lengths in the legacy
  stack, and a 4+4-byte CAS register word.
- User functions are a parameter `callees: (Entry, args) -> Behaviour`. A call either returns, optionally
  after writing an answer of given bytes, or crashes. The function registry is a set of names, and the system
  mode (execution or recovery) is a parameter.
- A C++ `throw` becomes an error value (`Outcome.Failed(...)` or `Result.Err(...)`), and so does an `assert` on
  data read from the region.

## Model

| member | source | states |
|---|---|---|
| Bytes.DecodeEncode | code/persistent_stack/persistent_stack.cpp:137-154 | a length written as n little-endian bytes reads back as the same number when it is below 256^n |
| Bytes.EncodeDecode | code/persistent_stack/persistent_stack.cpp:27-45 | any n bytes read as a number and written back are the same bytes (the read is injective) |
| Bytes.DecodeAppend | code/cas/cas.cpp:20-25 | a little-endian word splits into its low and high halves: value(a+b) = value(a) + 256^|a| * value(b) |
| Bytes.Write | code/persistent_stack/persistent_stack.cpp:124-128 | a memcpy image: the copied range holds the data, every other byte is unchanged, the length is kept |
| Bytes.WritesCommute | code/persistent_stack/persistent_stack.cpp:165-182 | two copies into disjoint ranges give the same region in either order |
| Bytes.CopyInto | code/persistent_stack/persistent_stack.cpp:124-128 | the in-place copy leaves the region equal to the Write image of the old one |
| PmemUtils.AlignUp | code/common/pmem_utils.h:20-25 | the aligned address is at least the input, a multiple of 64, and less than 64 above it |
| PmemUtils.AlignUpIsLeast | code/common/pmem_utils.h:20-25 | no multiple of 64 lies between the input and its aligned address: it is the least one |
| PmemUtils.AlignUpIdempotent | Google_tests/common/pmem_utils_test.cpp:36-50 | aligning an aligned address again changes nothing |
| PmemUtils.AlignUpFixesAligned | Google_tests/common/pmem_utils_test.cpp:16-34 | an address is its own aligned address if and only if it is a multiple of 64 |
| PmemUtils.AlignUpOfLineAndRemainder | Google_tests/common/pmem_utils_test.cpp:16-34 | 64k+r aligns to 64k when r = 0 and to 64(k+1) when 0 < r < 64 |
| PmemUtils.AlignUpMonotone | code/common/pmem_utils.h:20-25 | alignment preserves order, so aligned frame starts grow with the stack end |
| StackFrame.Size | code/frame/stack_frame.cpp:5-16 | a frame is at least 13 bytes long |
| StackFrame.SizeDecomposes | code/frame/stack_frame.cpp:5-16 | the size is the 8-byte slot, two 2-byte lengths, the name, the args and the 1-byte marker |
| Frames.GetFrameSize | code/persistent_stack/frames.cpp:4-15 | the free-standing frame size agrees with the frame's own size |
| Frames.GetFrameSizeGrowsByOne | code/persistent_stack/frames.cpp:4-15 | one more byte of name or of args makes the frame exactly one byte larger |
| RamStacks.RamStack.constructor | code/persistent_stack/persistent_stack.cpp:65-67 | a new RAM stack holds no frames |
| RamStacks.RamStack.AddFrame | code/persistent_stack/persistent_stack.cpp:108 | the frame is pushed on top and the frames below are unchanged |
| RamStacks.RamStack.RemoveFrame | code/persistent_stack/persistent_stack.cpp:194 | exactly the top frame is removed |
| RamStacks.RamStack.SetFrames | code/runtime/restoration.cpp:14-15 | the thread's RAM stack becomes the given frames |
| PersistentStack.EncodeFields | code/persistent_stack/persistent_stack.cpp:136-160 | the bytes after the answer slot span the frame size less the slot and the marker |
| PersistentStack.ReadFrame | code/persistent_stack/persistent_stack.cpp:20-63 | a frame read from the region lies wholly inside the region and has lengths below 65536 |
| PersistentStack.ReadFrameOfEncoded | code/persistent_stack/persistent_stack.cpp:20-63 | reading an encoded frame returns that frame, with is_last true if and only if its marker is STACK_END |
| PersistentStack.ReadFrameIsEncoded | code/persistent_stack/persistent_stack.cpp:20-63 | whatever read_frame returns is encoded at the offset it read (the converse of the round trip) |
| PersistentStack.LaidParses | code/persistent_stack/persistent_stack.cpp:65-91 | frames laid out back to back at aligned offsets, with only the last marked STACK_END, are read back exactly |
| PersistentStack.ParsedIsLaid | code/persistent_stack/persistent_stack.cpp:65-91 | whatever the scan returns is laid out that way, starting where the scan started |
| PersistentStack.ParseStackIffMirrors | code/persistent_stack/persistent_stack.cpp:65-91 | read_stack returns a RAM stack if and only if the region mirrors exactly that stack from offset 0 |
| PersistentStack.ReadStack | code/persistent_stack/persistent_stack.cpp:65-91 | the scanning loop returns what the stack-reading specification returns for the region |
| PersistentStack.FramesBelowEnd | code/persistent_stack/persistent_stack.cpp:102 | every frame of a stack ends at or before the stack end |
| PersistentStack.FramesKept | code/persistent_stack/persistent_stack.cpp:110-184 | writes at or beyond the old stack end's marker byte leave every old frame encoded and every lower marker unchanged |
| PersistentStack.FrameBody | code/persistent_stack/persistent_stack.cpp:131-165 | the bytes written after the slot are the frame size less the slot |
| PersistentStack.WithFiller | code/persistent_stack/persistent_stack.cpp:112-129 | seeding the new slot changes nothing outside that 8-byte slot |
| PersistentStack.UnlinkedPushImage | code/persistent_stack/persistent_stack.cpp:110-175 | before the relink, the push changes nothing below the new frame's aligned start and writes the frame body after its slot |
| PersistentStack.UnlinkedPushReadsOld | code/persistent_stack/persistent_stack.cpp:165-184 | a crash after the new frame is written but before the old top is relinked reads back the old stack |
| PersistentStack.PushNewFrame | code/persistent_stack/persistent_stack.cpp:102-175 | after the push the new frame is encoded at the aligned stack end and marked STACK_END |
| PersistentStack.PushKeepsOldFrames | code/persistent_stack/persistent_stack.cpp:177-184 | the push keeps every old frame encoded, and no old frame, the old top included, carries STACK_END any more |
| PersistentStack.PushMirrors | code/persistent_stack/persistent_stack.cpp:93-185 | after add_new_frame the region mirrors the RAM stack with the new frame on top |
| PersistentStack.PushFillerInSlot | code/persistent_stack/persistent_stack.cpp:112-129 | a new answer filler sits at the start of the new frame's slot |
| PersistentStack.PopMirrors | code/persistent_stack/persistent_stack.cpp:187-203 | after remove_frame the region mirrors the popped RAM stack |
| PersistentStack.StepMirrors | code/persistent_stack/persistent_stack.cpp:93-203 | one push or pop keeps the region mirroring the RAM stack |
| PersistentStack.RunMirrors | code/persistent_stack/persistent_stack.cpp:65-203 | after any history of pushes and pops, read_stack returns exactly the RAM stack |
| PersistentStack.AppendPiece | code/persistent_stack/persistent_stack.cpp:134-160 | each field copy extends the written prefix by that field |
| PersistentStack.WriteFrameBody | code/persistent_stack/persistent_stack.cpp:134-165 | the field copies write exactly the frame body at the given offset |
| PersistentStack.WriteUnlinked | code/persistent_stack/persistent_stack.cpp:110-175 | the writes before the relink produce the unlinked push image |
| PersistentStack.WriteNewFrame | code/persistent_stack/persistent_stack.cpp:110-184 | all region writes of the push produce the push image |
| PersistentStack.AddNewFrame | code/persistent_stack/persistent_stack.cpp:93-185 | the RAM push always happens; a filler that is empty or longer than 8 fails with the region unchanged, else the region becomes the push image |
| PersistentStack.RemoveFrame | code/persistent_stack/persistent_stack.cpp:187-203 | a one-frame stack fails with nothing changed; otherwise the top frame is popped and the new top's marker becomes STACK_END |
| Answer.WriteAnswerImage | code/runtime/answer.cpp:8-24 | size outside 1..8 is refused first and a one-frame stack next; otherwise exactly the caller's slot prefix holds the answer |
| Answer.ReadAnswer | code/runtime/answer.cpp:26-43 | succeeds if and only if the size is 1..8, with that many bytes; which bytes come back is proved by Answer.AnswerReachesCaller |
| Answer.ReadCurrentAnswer | code/runtime/answer.cpp:45-62 | succeeds if and only if the size is 1..8 and there is a caller frame; which bytes come back is proved by Answer.ReadCurrentAfterWrite and Call.FillerSeenByCallee |
| Answer.WriteAnswer | code/runtime/answer.cpp:8-24 | an error leaves the region unchanged; success writes the answer image |
| Answer.ReadCurrentAfterWrite | code/runtime/answer.cpp:45-62 | read_current_answer returns exactly what write_answer has just written |
| Answer.AnswerReachesCaller | code/runtime/answer.cpp:8-43 | a callee's answer, written then followed by the pop, is what its caller's read_answer returns |
| Answer.WriteAnswerKeepsMirror | code/runtime/answer.cpp:8-24 | writing an answer keeps the region mirroring the RAM stack |
| Answer.SlotWriteKeepsFrames | code/runtime/answer.cpp:20-22 | a write inside a slot keeps every frame encoded and every marker unchanged |
| Answer.FramesOrdered | code/persistent_stack/persistent_stack.cpp:102-108 | a lower frame ends before a higher one starts |
| Call.SeedAnswer | code/runtime/call.cpp:23-33 | seeding the caller's slot keeps the region length |
| Call.DoCall | code/runtime/call.cpp:15-53 | do_call leaves the outcome, invoked entry, RAM stack and region that the call specification gives |
| Call.Dispatch | code/runtime/call.cpp:35-52 | the lookup, run and pop after the push agree with the dispatch specification |
| Call.FillerCheckedFirst | code/runtime/call.cpp:23-28 | an invalid caller filler fails before anything is written or pushed |
| Call.DispatchRules | code/runtime/call.cpp:36-50 | a recovery call outside recovery mode fails after the push; a function runs if and only if both fillers are valid, the mode allows it and the name is registered |
| Call.FillerSeenByCallee | code/runtime/call.cpp:23-34 | the callee's read_current_answer returns the filler its caller seeded |
| Call.PushKeepsBelowEnd | code/runtime/call.cpp:34 | the push changes no byte below the old top's marker |
| Call.SeedKeepsMirror | code/runtime/call.cpp:29-32 | seeding the caller's slot keeps the mirror |
| Call.CalleeViewMirrors | code/runtime/call.cpp:23-34 | the region the callee starts with mirrors the stack with its frame on top |
| Call.CrashLeavesCalleeFrame | code/runtime/call.cpp:34-51 | a crash inside the callee leaves its frame on top of the stack that read_stack returns |
| Call.CompletedCallIsBalanced | code/runtime/call.cpp:34-52 | a completed call restores the RAM stack, keeps the mirror, and leaves the callee's answer in the caller's slot |
| Restoration.RecoverFrom | code/runtime/restoration.cpp:16-31 | (corrected behaviour) the recovery loop keeps the region length |
| Restoration.RecoverLoop | code/runtime/restoration.cpp:16-31 | the loop leaves the outcome, entries run, RAM stack and region that the recovery specification gives |
| Restoration.RecoverAbove | code/runtime/restoration.cpp:18-30 | (corrected behaviour) one iteration above the root keeps the region length |
| Restoration.RecoverTop | code/runtime/restoration.cpp:18-30 | one iteration: the lookup, the recovery entry, its answer and the pop leave the outcome, entry run, RAM stack and region that one step of the recovery specification gives; on success the top frame is popped |
| Restoration.DoRestoration | code/runtime/restoration.cpp:8-32 | outside recovery mode it refuses; otherwise it reads the stack and runs the recovery loop |
| Restoration.RecoveryOrder | code/runtime/restoration.cpp:16-31 | recovery runs one entry per frame above the root |
| Restoration.RecoveryOrderIndexes | code/runtime/restoration.cpp:16-31 | the i-th recovery entry is the recovery version of the i-th frame from the top |
| Restoration.PoppedFits | code/runtime/restoration.cpp:30 | popping keeps the stack inside the region and the answer slot addressable |
| Restoration.StepImageOf | code/runtime/restoration.cpp:26-30 | one recovery step writes the returned answer and then pops |
| Restoration.RecoveryStepKeepsMirror | code/runtime/restoration.cpp:18-30 | one recovery step keeps the region mirroring the popped stack |
| Restoration.RecoverFromUnfolds | code/runtime/restoration.cpp:16-31 | a successful step is followed by recovery of the popped stack, with its entry first |
| Restoration.RecoveryKeepsMirror | code/runtime/restoration.cpp:16-31 | however recovery ends, the region mirrors the RAM stack it leaves |
| Restoration.CompletedRecoveryRunsAll | code/runtime/restoration.cpp:16-31 | a completed recovery ran every frame's recovery version from the top down and leaves only the root frame, durably |
| Restoration.CrashedRecoveryShape | code/runtime/restoration.cpp:16-31 | a crash during recovery leaves a prefix of at least two frames, and exactly the top-down entries down to the crashed one have run |
| Restoration.CrashedRecoveryResumes | code/runtime/restoration.cpp:16-31 | after a crash during recovery the region reads back as the remaining prefix |
| Restoration.InvokedRegistered | code/runtime/restoration.cpp:21-25 | recovery runs only registered names, always in their recovery version |
| Restoration.RestorationCompletes | code/runtime/restoration.cpp:8-32 | a completed restoration of the stack read from the region ran all recovery entries and leaves only the root |
| Restoration.RestorationStartsAtTop | code/runtime/restoration.cpp:14-25 | the first entry recovery runs is the top frame's |
| Restoration.RestorationResumesAfterCrash | code/runtime/restoration.cpp:8-32 | a restoration that crashes can be restarted, and the restart first re-runs the entry that crashed |
| Restoration.RecoverFromAsWritten | code/runtime/restoration.cpp:14-31 | (as written) the recovery loop keeps the region length while answers target the copied stack's slot |
| Restoration.ScenarioGeometry | code/runtime/restoration.cpp:14-31 | in the three-frame scenario the copy's answer slot lies in the middle frame, not in the root |
| Restoration.AsWrittenUnfolds | code/runtime/restoration.cpp:16-31 | as written, each step writes through the copy and pops only the local stack |
| Restoration.AsWrittenLeavesRootSlot | code/runtime/restoration.cpp:14-31 | as written, the middle frame's recovered answer never reaches the root's slot |
| Restoration.CorrectedAnswersRoot | code/runtime/restoration.cpp:14-31 | with one shared stack, the middle frame's answer reaches the root's slot |
| Restoration.CopiedStackMisplacesAnswer | code/runtime/restoration.cpp:14-31 | the as-written and corrected loops leave different answers in the root's slot |
| ExecTask.EncodeCasTask | main.cpp:201-241 | a CAS task serialises to exactly 33 bytes |
| ExecTask.CasArgs | code/runtime/exec_task.cpp:65-72 | the arguments handed to "cas" are 24 bytes |
| ExecTask.DecodeEncodeCasTask | code/runtime/exec_task.cpp:20-72 | decoding an encoded task gives back its type, answer offset and CAS arguments |
| ExecTask.TopSlotFits | code/runtime/exec_task.cpp:46 | the top frame's answer slot lies inside the region |
| ExecTask.ExecTaskCommon | code/runtime/exec_task.cpp:14-98 | the method leaves the state the task specification gives |
| ExecTask.ExecCas | code/runtime/exec_task.cpp:29-91 | the CAS branch leaves the state the CAS-task specification gives |
| ExecTask.RunCas | code/runtime/exec_task.cpp:74-88 | calling cas and copying its answer leaves the state the run specification gives |
| ExecTask.RunCasUnfolds | code/runtime/exec_task.cpp:74-88 | a failed call changes no heap byte; a completed one copies a 0/1 answer to the heap, and any other byte is an error |
| ExecTask.RunTask | code/runtime/exec_task.cpp:100-103 | exec_task is the common routine in normal mode |
| ExecTask.RecoverTask | code/runtime/exec_task.cpp:105-108 | exec_task_recover is the common routine in recovery mode |
| ExecTask.OtherTaskTypesWriteNothing | code/runtime/exec_task.cpp:92-96 | a task type other than CAS changes nothing |
| ExecTask.RecoveryReusesAnswer | code/runtime/exec_task.cpp:44-58 | in recovery, a slot holding 0 or 1 is copied to the heap answer byte without calling cas again |
| ExecTask.RecoveryRejectsForeignSlot | code/runtime/exec_task.cpp:46-48 | in recovery, a slot byte other than 0, 1 and 0xFF is rejected and nothing is written |
| ExecTask.CasAnswerReachesHeap | code/runtime/exec_task.cpp:74-88 | a cas that answers b in {0,1} leaves b at the task's heap offset, the stack balanced and mirrored |
| ExecTask.ExecRunsCas | code/runtime/exec_task.cpp:60-80 | a CAS task whose slot holds no answer to reuse runs "cas" |
| ExecTask.CasCallCompletes | code/runtime/exec_task.cpp:74-80 | a registered cas that returns one byte completes |
| Cas.Pack | code/cas/cas.cpp:37-40 | the packed word has the given owner and value |
| Cas.PackOfHalves | code/cas/cas.cpp:20-25 | every word is the packing of its owner and value halves |
| Cas.PackLayout | code/cas/cas.cpp:37-40 | in memory the owner occupies bytes 0-3 and the value bytes 4-7 |
| Cas.Row | code/cas/cas.cpp:80-83 | a thread's notification row has one cell per thread |
| Cas.CasInternalSpec | code/cas/cas.cpp:12-58 | answer 1 if and only if the value equals expected; on 0 nothing changes; on 1 the word holds (tid, new) |
| Cas.CasRecoverSpec | code/cas/cas.cpp:60-91 | answer 1 if and only if the word shows (tid, new), or new is in tid's row, or the value equals expected |
| Cas.Register.constructor | code/cas/cas.cpp:12 | the register starts with the given word |
| Cas.CasInternal | code/cas/cas.cpp:12-58 | the method's answer and new register and matrix are those of the CAS specification |
| Cas.CasRecoverInternal | code/cas/cas.cpp:60-91 | the loop over tid's row and the fallback cas agree with the recovery specification |
| Cas.SuccessNotifiesOwner | code/cas/cas.cpp:31-36 | a successful CAS stores the replaced value in cell [previous owner][tid] and nowhere else, unless there was no owner |
| Cas.RecoverWithoutEvidenceRetries | code/cas/cas.cpp:90 | with no evidence of success, recovery is a fresh CAS |
| Cas.RecoverFromEvidenceWritesNothing | code/cas/cas.cpp:75-89 | with evidence of success, recovery answers 1 and changes nothing |
| Cas.RunAll | code/cas/cas.cpp:12-58 | a sequence of CAS calls keeps the state well formed |
| Cas.OwnerGetsNotified | code/cas/cas.cpp:31-36 | when another thread replaces tid's value, that value lands in tid's row |
| Cas.OtherRowUntouched | code/cas/cas.cpp:31-36 | a CAS by another thread that replaces someone else's value leaves tid's row unchanged |
| Cas.OtherCasKeepsNotified | code/cas/cas.cpp:12-58 | once tid can see its success, a CAS by another thread does not hide it |
| Cas.OthersKeepNotified | code/cas/cas.cpp:12-58 | no sequence of other threads' CAS calls hides tid's success |
| Cas.RecoveryAfterSuccessAnswersOne | code/cas/cas.cpp:60-91 | after a successful CAS and any CAS calls by other threads, recovery answers 1 and writes nothing |
| PmemAllocator.BlockStartIsProduct | code/allocation/pmem_allocator.cpp:54-58 | block n starts at n*(blockSize+1) |
| PmemAllocator.BlockNumInvertsStart | code/allocation/pmem_allocator.cpp:54-69 | get_block_num inverts get_block_start, and each block's marker is its last byte |
| PmemAllocator.BlocksOrdered | code/allocation/pmem_allocator.cpp:54-63 | blocks do not overlap and lie in order |
| PmemAllocator.BlockEndsDistinct | code/allocation/pmem_allocator.cpp:60-63 | different blocks have different marker bytes |
| PmemAllocator.Markers | code/allocation/pmem_allocator.cpp:30 | the marker sequence holds each block's last heap byte |
| PmemAllocator.MarkersAfterWrite | code/allocation/pmem_allocator.cpp:86 | writing one block's marker byte changes only that block's marker |
| PmemAllocator.NewAllocatorSpec | code/allocation/pmem_allocator.cpp:14-20 | a freshly initialised heap is consistent |
| PmemAllocator.WalkBack | code/allocation/pmem_allocator.cpp:152-176 | the walk stops at the nearest block that is not FREED, and everything it passed is FREED |
| PmemAllocator.ScanBorder | code/allocation/pmem_allocator.cpp:26-50 | the recovery scan stops at or after where it starts and inside the heap |
| PmemAllocator.Allocator.constructor | code/allocation/pmem_allocator.cpp:6-52 | a new heap starts with border 0 and nothing freed; a reopened heap takes its border and freed set from the markers |
| PmemAllocator.Allocator.Alloc | code/allocation/pmem_allocator.cpp:71-128 | reuses a freed block when there is one, else bumps the border or fails at the maximum, as the allocation specification says; only marker bytes change |
| PmemAllocator.Allocator.WriteMarker | code/allocation/pmem_allocator.cpp:85-87 | writing one block's marker byte changes that marker and no other heap byte |
| PmemAllocator.Allocator.ReuseFreed | code/allocation/pmem_allocator.cpp:74-93 | a freed block is taken out of the set, marked ALLOCATED and handed out, as the allocation specification says |
| PmemAllocator.Allocator.BumpBorder | code/allocation/pmem_allocator.cpp:99-127 | the next block is marked HEAP_END, then the old heap end ALLOCATED, and the border moves up by one |
| PmemAllocator.Allocator.Free | code/allocation/pmem_allocator.cpp:130-180 | the state becomes the free specification's and only marker bytes change |
| PmemAllocator.Allocator.ReleaseTail | code/allocation/pmem_allocator.cpp:152-176 | the backward walk finds the nearest non-FREED block and keeps only the freed blocks below it |
| PmemAllocator.Allocator.IsAllocated | code/allocation/pmem_allocator.cpp:182-194 | a block is allocated if and only if it is at or below the border and not FREED |
| PmemAllocator.ScanMarkers | code/allocation/pmem_allocator.cpp:26-50 | the recovery loop finds the first HEAP_END block and the FREED blocks below it, a consistent state |
| PmemAllocator.RecoveredIsConsistent | code/allocation/pmem_allocator.cpp:26-50 | markers with one HEAP_END after ALLOCATED/FREED blocks recover to that border, consistently |
| PmemAllocator.ScanFindsFirst | code/allocation/pmem_allocator.cpp:33-39 | the scan returns the first HEAP_END at or after its start |
| PmemAllocator.RecoveryMatchesLiveState | code/allocation/pmem_allocator.cpp:26-50 | recovering from a consistent heap gives back the live border and freed set |
| PmemAllocator.AllocKeepsConsistent | code/allocation/pmem_allocator.cpp:71-128 | allocation keeps markers and RAM state consistent |
| PmemAllocator.FreeKeepsConsistent | code/allocation/pmem_allocator.cpp:130-180 | freeing keeps markers and RAM state consistent |
| PmemAllocator.AllocHandsOutFreeBlock | code/allocation/pmem_allocator.cpp:71-128 | it fails if and only if nothing is freed and the border is at the maximum; otherwise the block was free, is now allocated, and no other block changes |
| PmemAllocator.FreeReleasesOnlyThatBlock | code/allocation/pmem_allocator.cpp:130-180 | freeing an allocated block makes it unallocated and changes no other block |
| PmemAllocator.BumpCrashRecoversOld | code/allocation/pmem_allocator.cpp:114-120 | a crash between the two writes of a bump recovers the old border |
| PmemAllocator.FreeThenAllocReuses | code/allocation/pmem_allocator.cpp:71-180 | with nothing else freed, a freed block is the next one allocated |
| PmemAllocator.ThreeAllocations | Google_tests/allocation/pmem_allocator_test.cpp:37-61 | with 1-byte blocks the first three allocations are at offsets 2, 4 and 6, and freeing the last leaves the other two allocated |
| LegacyStack.U64Field | code/persistent_stack/call.cpp:14-18 | an 8-byte length field reads back as the length written |
| LegacyStack.FrameSizeDecomposes | code/persistent_stack/ram_stack.cpp:3-14 | the legacy frame size is two 8-byte lengths, name, args, an 8-byte slot and a marker, at least 25 |
| LegacyStack.LegacyFields | code/persistent_stack/call.cpp:85-109 | the written fields span the frame less the slot and the marker |
| LegacyStack.LegacyReadFrame | code/persistent_stack/call.cpp:9-54 | a frame read lies inside the region with lengths below 2^64 |
| LegacyStack.LegacyReadOfEncoded | code/persistent_stack/call.cpp:9-54 | reading an encoded legacy frame returns it, with is_last if and only if its marker is 0x1 |
| LegacyStack.LegacyReadIsEncoded | code/persistent_stack/call.cpp:9-54 | whatever read_frame returns is encoded where it was read |
| LegacyStack.LegacyLaidParses | code/persistent_stack/call.cpp:56-75 | packed frames with only the last marked 0x1 are read back exactly |
| LegacyStack.LegacyParsedIsLaid | code/persistent_stack/call.cpp:56-75 | whatever the scan returns is packed and marked that way |
| LegacyStack.LegacyParseIffMirrors | code/persistent_stack/call.cpp:56-75 | read_stack returns a RAM stack if and only if the region mirrors it |
| LegacyStack.LegacyReadStack | code/persistent_stack/call.cpp:56-75 | the loop returns the stack-reading specification's result |
| LegacyStack.LegacyUnlinkedReadsOld | code/persistent_stack/call.cpp:117-129 | a crash before the relink reads back the old stack |
| LegacyStack.LegacyPushNewFrame | code/persistent_stack/call.cpp:77-122 | the new frame is encoded at the stack end and marked 0x1 |
| LegacyStack.LegacyPushMirrors | code/persistent_stack/call.cpp:77-130 | after add_new_frame the region mirrors the pushed RAM stack |
| LegacyStack.LegacyPopMirrors | code/persistent_stack/call.cpp:132-145 | after remove_frame the region mirrors the popped RAM stack |
| LegacyStack.LegacyWriteAnswerImage | code/persistent_stack/call.cpp:175-194 | succeeds if and only if the size is 1..8 and there is a caller; the answer lands at top.position-9 |
| LegacyStack.LegacyReadAnswer | code/persistent_stack/call.cpp:196-219 | succeeds if and only if the size is 1..8; which bytes come back is proved by LegacyStack.LegacyAnswerReachesCaller |
| LegacyStack.LegacyReadCurrentAnswer | code/persistent_stack/call.cpp:221-241 | succeeds if and only if the size is 1..8 and there is a caller; which bytes come back is proved by LegacyStack.LegacyReadCurrentAfterWrite |
| LegacyStack.CurrentSlotIsCallerSlot | code/persistent_stack/call.cpp:187-191 | top.position-9 is exactly the caller's answer slot |
| LegacyStack.LegacyReadCurrentAfterWrite | code/persistent_stack/call.cpp:175-241 | read_current_answer returns what write_answer wrote |
| LegacyStack.LegacyAnswerKeepsMirror | code/persistent_stack/call.cpp:175-194 | writing an answer keeps the mirror |
| LegacyStack.LegacyAnswerReachesCaller | code/persistent_stack/call.cpp:175-219 | after write_answer and the pop, the caller's read_answer returns the answer |
| LegacyStack.LegacyWriteFrame | code/persistent_stack/call.cpp:83-129 | the region writes of the push produce the push image |
| LegacyStack.LegacyWriteUnlinked | code/persistent_stack/call.cpp:83-122 | the field and marker writes of the push, before relinking, produce the unlinked image |
| LegacyStack.LegacyAddNewFrame | code/persistent_stack/call.cpp:77-130 | pushes on the RAM stack and writes the push image |
| LegacyStack.LegacyRemoveFrame | code/persistent_stack/call.cpp:132-145 | a one-frame stack fails unchanged; otherwise pops and writes 0x1 before the popped frame |
| LegacyStack.LegacyWriteAnswer | code/persistent_stack/call.cpp:175-194 | an error leaves the region unchanged; success writes the answer image |
| LegacyStack.LegacyDoCall | code/persistent_stack/call.cpp:149-172 | the method leaves the state the legacy call specification gives |
| LegacyStack.LegacyDispatch | code/persistent_stack/call.cpp:156-171 | lookup, run and pop agree with the dispatch specification |
| LegacyStack.LegacyReturn | code/persistent_stack/call.cpp:168-171 | the callee's answer is written, then the frame popped, as the return specification gives |
| LegacyStack.LegacyCompletedCallIsBalanced | code/persistent_stack/call.cpp:149-172 | a completed call restores the RAM stack and mirror, and the callee's answer is what the caller reads |
| CasHistory.DegreesAppend | cas_checking/check.py:1-12 | degrees and the success count add over concatenated histories |
| CasHistory.DegreesOfPermutation | cas_checking/check.py:1-12 | degrees do not depend on the order of the history |
| CasHistory.VertexIffDegree | cas_checking/check.py:19 | a value is a graph vertex if and only if it has a nonzero in- or out-degree |
| CasHistory.ReplayIsWalk | cas_checking/check.py:15-35 | a history that replays from v in some order has Euler-path degrees from v to its final value |
| CasCheck.BuildDegrees | cas_checking/check.py:1-12 | the dictionaries hold exactly the values with successful CASes, with their in- and out-degrees |
| CasCheck.Increment | cas_checking/check.py:6-11 | a missing count starts at zero and goes up by one; no other entry changes |
| CasCheck.Check | cas_checking/check.py:15-35 | the loop's verdict is that of the degree-check specification |
| CasCheck.ScanFoundAll | cas_checking/check.py:19-35 | once every vertex is visited, the remembered start and finish are the only ones, so the returned expression is the specification's verdict |
| CasCheck.SameDegreesSameVerdict | cas_checking/check.py:15-35 | histories with equal degrees get equal verdicts |
| CasCheck.VerdictIgnoresFailuresAndOrder | cas_checking/check.py:5 | reordering the history or adding a failed CAS does not change the verdict |
| CasCheck.VerdictIgnoresThreadOrder | cas_checking/check.py:15-35 | the verdict does not depend on the order of the thread lists |
| CasCheck.CorrectedCheckIsEulerCondition | cas_checking/check.py:15-35 | (corrected) accepted if and only if degrees form an Euler path or circuit from the initial value |
| CasCheck.EulerDegreesAccepted | cas_checking/check.py:15-35 | (corrected) Euler-path degrees from the initial value are accepted |
| CasCheck.ConsistentHistoryAccepted | cas_checking/check.py:15-35 | a history that replays from the initial value in some order is accepted by both checks |
| CasCheck.RecordedExamples | cas_checking/test/check_test.py:7-30 | the recorded cycle and path are accepted, and the path is rejected from a wrong initial value |
| CasCheck.RecordedPathReplays | cas_checking/test/check_test.py:15-22 | the recorded Euler path replays from 1 and ends at 2 |
| CasCheck.RecordedPathStartsAtOne | cas_checking/test/check_test.py:24-31 | value 1 has one more outgoing than incoming edge, so the path cannot start at 2 |
| CasCheck.RepeatedCasAccepted | cas_checking/check.py:19-35 | (as written) [CAS(1,2,T), CAS(1,2,T)] from 1 is accepted though no order replays it |
| CasCheck.RepeatedCasDegrees | cas_checking/check.py:1-12 | that history has in-degree 2 at 2 and out-degree 2 at 1 |
| CasCheck.CorrectedRejectsRepeatedCas | cas_checking/check.py:19-35 | (corrected) that history is rejected |
| CasCheckRestricted.ValidationError | cas_checking/check_restricted.py:8-15 | validation raises only a self loop, an install of the initial value or a duplicated target |
| CasCheckRestricted.ValidationErrorMeans | cas_checking/check_restricted.py:8-15 | validation passes if and only if no CAS is a self loop, none installs the initial value and targets are distinct |
| CasCheckRestricted.GraphEdges | cas_checking/check_restricted.py:17-21 | v's successor list holds exactly the successful CASes from v, one per out-degree |
| CasCheckRestricted.WellFormedGraphIsChainShaped | cas_checking/check_restricted.py:4-22 | a validated graph has in-degree at most one everywhere and none at the initial value |
| CasCheckRestricted.WalkNeverRevisits | cas_checking/check_restricted.py:25-36 | on such a graph the walk from the initial value never revisits a value, so it terminates |
| CasCheckRestricted.EdgeIndexSound | cas_checking/check_restricted.py:33 | every indexed edge is a step of the path at its index |
| CasCheckRestricted.EdgeIndexComplete | cas_checking/check_restricted.py:33 | every step of a path without repeats is indexed by its position |
| CasCheckRestricted.Traverse | cas_checking/check_restricted.py:25-36 | the loop returns the walk's edge index and length, or false when a value has two successors |
| CasCheckRestricted.TraverseStep | cas_checking/check_restricted.py:32-35 | following the single successor extends the walk by one value and numbers the new edge with the count so far |
| CasCheckRestricted.TraverseDone | cas_checking/check_restricted.py:29 | where the loop stops at a value without successors, the walk is the path so far |
| CasCheckRestricted.BuildGraph | cas_checking/check_restricted.py:4-22 | validation errors are those of the validation specification; otherwise the graph and edge count are exact |
| CasCheckRestricted.Check | cas_checking/check_restricted.py:39-64 | the verdict is that of the restricted-check specification |
| CasCheckRestricted.AcceptedIsLinearizable | cas_checking/check_restricted.py:39-64 | an accepted history has an order that replays from the initial value, includes exactly the successes, and keeps each thread's order |
| CasCheckRestricted.LinearizableIsAccepted | cas_checking/check_restricted.py:39-64 | a validated history with such an order is accepted |
| CasCheckRestricted.AcceptIffLinearizable | cas_checking/check_restricted.py:39-64 | for validated histories, accepted if and only if linearizable |
| CasCheckRestricted.NeverMissingEdge | cas_checking/check_restricted.py:55-63 | the edge lookups in the thread loop never miss; the check raises only on validation errors |
| CasCheckRestricted.AcceptedPassesDegreeCheck | cas_checking/check_restricted.py:39-64 | whatever the restricted check accepts, the degree check accepts too |
| CasCheckRestricted.SequentialAccepted | cas_checking/test/check_restricted_test.py:8-16 | the recorded sequential history is accepted |
| CasCheckRestricted.SequentialLinearizes | cas_checking/test/check_restricted_test.py:8-16 | the two successful CASes in thread order linearise the sequential history |
| CasCheckRestricted.ParallelAccepted | cas_checking/test/check_restricted_test.py:48-57 | the recorded parallel history is accepted |
| CasCheckRestricted.ParallelOrderCounts | cas_checking/test/check_restricted_test.py:48-68 | the chain order 1, 2, 7, 9, 10 uses the same successful CASes as both parallel histories |
| CasCheckRestricted.ParallelOutOfOrderRejected | cas_checking/test/check_restricted_test.py:59-68 | the parallel history with a thread's successes out of chain order is rejected |
| CasCheckRestricted.NoActionsAccepted | cas_checking/test/check_restricted_test.py:18-36 | histories with only failed CASes that never expect the initial value are accepted |
| CasCheckRestricted.NoActionsLinearize | cas_checking/test/check_restricted_test.py:18-36 | a valid thread of failed CASes that never expect the initial value is linearised by the empty order |
| CasCheckRestricted.SingleIncorrectRejected | cas_checking/test/check_restricted_test.py:38-46 | a failed CAS that expected the initial value, with no successes, is rejected |

## Left out

- Memory mapping and files: `persistent_memory_holder`, `stack_holder` and the mmap calls are not modelled. Each region is an array whose length is a parameter.
- `pmem_do_flush` is a foreign call into PMDK. Flushes are no-ops here, and a crash is a region image between two writes.
- The blocking queue, the mutexes and the atomics are not modelled. Every operation runs sequentially, so interleavings of threads on the CAS register or the allocator are not covered.
- Thread-local and global storage singletons are passed explicitly: the RAM stack, the region, the registry, the mode, and the heap that exec_task writes its answer into.
- `main.cpp` (task generation, thread set-up, reporting) is not modelled, except the 33-byte CAS task encoder as the partner of exec_task's decoder.
- `cas` and `cas_recover` (code/cas/cas.cpp:93-101) have empty bodies and are not modelled. Inside `do_call` the registered "cas" is an abstract callee.
- User functions are abstract. A callee either crashes or returns, optionally after writing an answer of given bytes. The code it runs between its own calls is not modelled.
- CACHE_LINE_SIZE is fixed at 64. The body of `get_cache_line_aligned_address` is not part of this model; its declared contract (pmem_utils.h:20-25) defines AlignUp.
- The values of STACK_END_MARKER and FRAME_END_MARKER are defined outside the modelled sources. The model uses 1 and 0, as the legacy layout does, and no proof depends on anything but their being different.
- PersistentStack.ReadStack: the source loops without bounds; the model returns None where the scan would read past the region, and do_restoration then fails with CorruptedStack.
- The `assert`s on region data in exec_task (exec_task.cpp:47-48, 82) become a CorruptedAnswer error. The allocator's asserts on markers (pmem_allocator.cpp:31-32, 134, 157, 164) become preconditions, because its state invariant guarantees them.
- PmemAllocator.Allocator.Alloc: `*freed_blocks.begin()` on an `unordered_set` is an arbitrary member. The specification takes the chosen block as a parameter and the method promises only that it came from the freed set.
- The 64-bit width of offsets and the 32-bit width of the allocator's block size are not modelled. Offsets are unbounded naturals, and a length field is required to fit its 2- or 8-byte encoding.
- Restoration.DoRestoration: the source keeps two RAM stacks (see Findings). The method follows the corrected single-stack behaviour. The as-written behaviour is the separate function RecoverFromAsWritten.
- CasHistory.Flatten: `utils.flatten` is not part of this model; it is taken to be concatenation of the thread lists.
- CasCheckRestricted.AcceptIffLinearizable: for a history with no successful CAS, the equivalence is stated only when no failed CAS expected the initial value. Linearizability here constrains the order of successes only, and the source's extra rejection (check_restricted.py:45-47) is proved separately by SingleIncorrectRejected.

## Notes on the code

- While a push is in flight, the scan stops at the old top's STACK_END marker, not at the new frame's. UnlinkedPushReadsOld proves that such an image reads back as the old stack.
- After a successful CAS, code/cas/cas.cpp:51 flushes 4 bytes of the 8-byte register word. main.cpp:80 places the register on a cache-line boundary, so the flush reaches the whole word. Flushes are no-ops in the model.
- The CAS functions are declared in cas.h as returning bool. In cas.cpp they return nothing and write an answer byte through a pointer, and the model returns that byte.

## Findings

| source | as written | input that shows it | evidently intended | confidence | as-written member | corrected member |
|---|---|---|---|---|---|---|
| code/runtime/restoration.cpp:14-30 | `set_object(r_stack)` stores a copy of the stack (thread_local_owning_storage.h:55-58). The loop pops only its local `r_stack`, so every recovery function's `write_answer` targets the copy's second-from-top frame | root → A → B in the region; B's recovery returns no answer and A's returns [1]. A's answer lands in A's own slot, not in the root's | each recovery function writes into its caller's slot, as in normal execution | medium, not executed | Restoration.AsWrittenLeavesRootSlot | Restoration.CorrectedAnswersRoot |
| cas_checking/check.py:19-35 | vertices with \|in − out\| ≥ 2 are skipped, neither rejected nor counted as start or finish | [CAS(1,2,True), CAS(1,2,True)] with initial value 1 is accepted, though after the first success the value is 2 and the second cannot succeed | reject any vertex whose degrees differ by more than one, which is the Euler-path condition | high, not executed | CasCheck.RepeatedCasAccepted | CasCheck.CorrectedRejectsRepeatedCas |
