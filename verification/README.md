# Proofs about linux_device_driver

A Dafny model of the parts of linux_device_driver where something can go wrong
between two lines of code: drivers that share state between tasks, loops that
move bytes in pieces, and encoders whose output somebody else has to read.

`dafny verify dfyconfig.toml` checks everything.

## What is modelled

**gfifo** (`GfifoQueue`, `GfifoProtocol`, `GfifoProof`, `GfifoOutcomes`,
`GfifoDevice`). Any
number of tasks run read, write, ioctl and poll on one device. Every statement
that touches the device, the mutex, a wait queue or a task's run state is a step
of its own, and byte copies advance one byte per step; signals, spurious
wake-ups and user-copy faults may strike between any two steps. The specification
is an atomic bounded byte queue. The driver is shown to be linearizable to it,
bytes are conserved, no wake-up is lost, and every call moves as much as it can
and ends after a bounded number of its own steps. `GfifoDevice` is the same code as a
class that works in place.

**Firmware loader and memloader** (`MemloaderCore`, `MemloaderDevice`,
`Firmware`, `FirmwareProof`, `FirmwareSafety`, `FirmwareStates`,
`FirmwareReturns`, `FirmwareProgress`). The load function is a step system under `serial_lock`;
cancelling, deleting, changing the block size and changing the load address
happen without the lock between any two steps. The write callback copies from
one mapped range or page by page; each of its reads of the block size and each
page is a step of its own.

**limitfs** (`LimitFsTree`, `LimitFs`, `LimitFsNames`, `LimitFsDevice`). An
arbitrary directory tree, what every operation changes in it path by path, the recursive size walk as written (with the counter it does not reset),
and the cached size that operations adjust or recompute.

**netrelay** (`Bits`, `Cbpf`, `Vlan`, `Transfer`, `Eoe`, `Relay`). A classic BPF
interpreter, the two literal filter tables, the in-place VLAN rewriting, the EoE
header, and the packet buffer with the forwarding loop.

**logbuffer** (`LogBuffer`). The line splitter and the loop that feeds it pieces.

**Registers and LEDs** (`Registers`, `Leds`). Masked writes of one word, the
64-bit write in two halves, and LEDs that share registers, set directly or
through a work queue. Words are bit lists of any width.

**smemcap** (`TarOctal`, `Tar`, `TarReader`, `TarWriter`). The tar header and body writer
against a reader.

**memutil** (`MemUtil`). The page window in 64-bit arithmetic and the transfer
loops.

## Properties that hold only under a condition

Each of these says exactly on which inputs the code does what one would expect,
as an equivalence.

- `MemloaderCore.PagePathExact`: the page path ignores the offset inside a page,
  so it loads every image of n bytes if and only if n is 0, the block size is at
  least n, or the block size is a multiple of the page size and not negative.
  `MappedPathExact` is the counterpart for the contiguous path, and
  `PathsAgreeExact` says that the two paths leave the same memory and counts on
  every image of n bytes under the same condition, and never with a negative
  block size.
- `FirmwareSafety.LoadedMeansLoaded`: a load that ends in FW_LOADED has counted
  all the bytes to load if and only if no callback found the block size zero at
  its second read, so certainly if nobody set it to zero during the load.
  `TornReadLoadsNothing` gives, for every image of which any byte is to be
  loaded, an interleaving that ends in FW_LOADED with no byte written.
- `FirmwareSafety.CancelledTooLate`: a load that was cancelled or deleted is
  committed all the same if and only if every cancellation came between the read
  of the final state and the assignment of FW_LOADED, which overwrites it.
- `FirmwareReturns.FailedLoadReturns`, `ReturnExact`: a failed load returns 0 if
  and only if its failing callback had not copied anything, and -EIO otherwise.
  Success is therefore stated as "the state became FW_LOADED".
- `FirmwareSafety.WholeImageExact`: the size is cut to an int, so a load covers
  the whole image if and only if it is smaller than 2 GiB.
- `LimitFsTree.WalkExact`, `LimitFs.StaysExact`: the walk never misses a byte,
  and counts none twice if and only if whatever it visits just before a
  subdirectory is empty.
- `Vlan.OamRoundTrip`, `Vlan.DhcpRoundTrip`, `Vlan.RetagRoundTrip`: which tags
  survive both rewritings, including the 16-bit wrap-arounds at 0 and 4095.
- `Relay.Buffer.DelHeader`, `Relay.Buffer.Forward`: the window stays inside the
  buffer if and only if a packet to unwrap is at least as long as a header.
- `Registers.SplitWriteExact`: with no option bit set, two halves and one word
  can differ, because one half of a mask can be full when the whole is not.
- `Registers.SplitReadIsZero`: the split read combines its halves with `&` and
  is always 0.
- `LogBuffer.ShowExact`: what is printed in pieces equals what would be printed
  at once if and only if no piece boundary falls inside a line in a way that
  shows, taking the cut of long lines and embedded NULs into account.
- `LogBuffer.Show`: every piece lies inside the mapping if and only if there is
  none, the end offset does not wrap, or the pieces end where the mapping ends.
- `TarReader.NameExact`, `TarReader.OwnerExact`: a name of more than 100 bytes, and a user
  or group number of more than eight octal digits, run into the next field.
- `TarReader.ChecksumBack`: the checksum is valid if and only if plain char is
  unsigned or no byte of the header is 128 or more.
- `Eoe.LengthFieldExact`: the 16-bit length field of the frame is right if and
  only if the payload has at most 65531 bytes.
- `Transfer.DrainExact`, `MemUtil.ReadDrainExact`: a transfer is complete if and
  only if the calls before the first end or error offer enough bytes, and for a
  read the file has enough; interruptions change nothing.
- `MemUtil.MapWindowExact`: the window is right if and only if the sum that is
  rounded up fits 64 bits.

Where the documentation and the code disagree, the model follows the code: the
filter listing above the DHCP table uses untagged offsets, the table itself the
tagged ones.

## Model

| member | source | states |
|---|---|---|
| `GfifoProof.DriverIsLinearizable` | gfifo_async/gfifo_async.c:52-168 | every interleaving of any number of readers, writers, clears, polls, signals and faults shows a run of the atomic bounded queue: each call takes effect once, between its call and its return, and returns what that effect decided; -EFAULT, -EAGAIN and -ERESTARTSYS leave the queue as it was, -EAGAIN only on an empty or full one, -EFAULT only when there was a byte to copy |
| `GfifoQueue.BytesAreConserved` | gfifo_async/gfifo_async.c:52-168 | in every run of the atomic queue the bytes accepted are the bytes delivered followed by the bytes pending, and the queue never exceeds its capacity; a clear turns the pending bytes into zeros |
| `GfifoQueue.EventConserves` | gfifo_async/gfifo_async.c:56-160 | one call keeps the two ledgers in balance |
| `GfifoProof.DriverConservesBytes` | gfifo_async/gfifo_async.c:68-168 | in every run of the driver, accepted bytes are delivered bytes followed by what mem and the copy in progress stand for, mem[..cur_len] when the mutex is free, and cur_len stays within the buffer |
| `GfifoProof.NoLostWakeup` | gfifo_async/gfifo_async.c:75-154 | whenever the mutex is free, a sleeping reader means an empty buffer, a sleeping writer a full one, and readers and writers are never asleep together |
| `GfifoProof.StuckOnlyWhenBlocked` | gfifo_async/gfifo_async.c:75-168 | if no task can take a step then the mutex is free and every call in progress is a reader on an empty buffer or a writer on a full one |
| `GfifoProof.OwnerProceeds` | gfifo_async/gfifo_async.c:75-163 | the owner of the mutex always has a next step |
| `GfifoProof.EveryStepIsGood` | gfifo_async/gfifo_async.c:52-168 | every step keeps the invariant and shows one transition of the atomic queue |
| `GfifoProof.InvHolds` | gfifo_async/gfifo_async.c:52-168 | the mutex discipline, the wait-queue membership and the excuse of every sleeper hold in every reachable state |
| `GfifoProof.ShiftKeepsPending` | gfifo_async/gfifo_async.c:100 | each byte of the overlapping forward memcpy leaves the queue it stands for unchanged |
| `GfifoProof.FillStep` | gfifo_async/gfifo_async.c:144-152 | a user copy that faults after any number of bytes leaves the queue unchanged, a finished one appends exactly the counted bytes |
| `GfifoProof.WakeStep` | gfifo_async/gfifo_async.c:103-154 | the wake-up leaves no sleeper without an excuse |
| `GfifoOutcomes.FailuresHaveCauses` | gfifo_async/gfifo_async.c:78-149 | in every run a call fails with -EFAULT only when its own user copy faults, with -ERESTARTSYS only when it has a signal, and with -EAGAIN only when it may not wait and would have to |
| `GfifoOutcomes.FaultsFail` | gfifo_async/gfifo_async.c:96-149 | a user copy that faults with a byte to copy ends the call with -EFAULT |
| `GfifoOutcomes.TransfersAreMaximal` | gfifo_async/gfifo_async.c:93-152 | in every run a read that returns bytes takes from the front as many as are asked for in 32 bits or all that are pending, and a write appends as many as are offered in 32 bits or as there is room |
| `GfifoOutcomes.CallSucceeds` | gfifo_async/gfifo_async.c:93-168 | in every run a reader or writer past the wait loop whose user copy does not fault returns bytes or a count, after at most cap + 5 steps of its own |
| `GfifoOutcomes.CallsAreBounded` | gfifo_async/gfifo_async.c:68-168 | in every run a call returns or is asleep after at most cap + 9 steps of its own, counted from its invocation or from a wake-up |
| `GfifoOutcomes.SignalEndsSleep` | gfifo_async/gfifo_async.c:83-91 | in every run a sleeper that has a signal can go on at any time, and its next step ends the call with -ERESTARTSYS |
| `GfifoOutcomes.NudgeArrives` | gfifo_async/gfifo_async.c:83-91 | a signal or a wake-up lets a sleeper go on |
| `GfifoOutcomes.ClearClearsAll` | gfifo_async/gfifo_async.c:56-59 | when a clear is done every byte of the memory is zero, also beyond what is pending |
| `GfifoDevice.Device.constructor` | gfifo_async/gfifo_async.c:263-271 | a new device is an empty queue |
| `GfifoDevice.Device.ShiftDown` | gfifo_async/gfifo_async.c:100 | the in-place forward loop moves the tail to the front intact although source and target overlap |
| `GfifoDevice.Device.Read` | gfifo_async/gfifo_async.c:78-109 | one pass either waits, exactly on an empty buffer in blocking mode, or has the effect of the atomic read; with data it delivers if and only if the user copy does not fault or asks for no byte |
| `GfifoDevice.Device.Write` | gfifo_async/gfifo_async.c:129-160 | one pass either waits, exactly on a full buffer in blocking mode, or has the effect of the atomic write; with room and no fault it accepts |
| `GfifoDevice.Device.MemClear` | gfifo_async/gfifo_async.c:56-59 | every byte of the buffer is zero and as many bytes as before are pending |
| `GfifoDevice.Device.PollMask` | gfifo_async/gfifo_async.c:211-222 | readable if and only if something is pending, writable if and only if there is room, and the poll itself has no effect on the queue |
| `MemloaderCore.LoadPieceStores` | memloader/memloader_core.c:47-62 | a positive count that is granted a mapping is stored byte for byte and no other byte changes; otherwise there is the right error and nothing changes |
| `MemloaderCore.PagedWriteCopies` | memloader/memloader_core.c:118-136 | from a page boundary the page loop fails, or writes exactly the counted bytes of the image and nothing else, whatever mappings are refused |
| `MemloaderCore.WriteChunkLoads` | memloader/memloader_core.c:76-140 | a callback fails or extends the loaded prefix of the image by exactly what it returns: contiguous for every block size, by pages from a page boundary |
| `MemloaderCore.WriteChunkExact` | memloader/memloader_core.c:76-140 | one callback, source by source: a block, everything without a block size, never more than is left; refused without a source, all or nothing with the right error from one range, all or -ENOMEM by pages |
| `MemloaderCore.LoadLoopLoads` | memloader/memloader_core.c:86-137 | the whole loop loads the image, contiguous for every block size, by pages when every callback starts on a page boundary |
| `MemloaderCore.PagesWriteWhatMappedWrites` | memloader/memloader_core.c:86-137 | across the whole load loop the two paths leave the same memory, count and result for every block size that is a non-negative multiple of the page size, zero included |
| `MemloaderCore.NegativeBlocksFail` | memloader/memloader_core.c:86-137 | with a negative block size no image is loaded: the contiguous path refuses and changes nothing, the page path ends in a refused mapping or beyond the pages |
| `MemloaderCore.OverrunExact` | memloader/memloader_core.c:118-136 | with a negative count the page loop reads beyond the pages if and only if every page of the image gets its mapping; otherwise it fails |
| `MemloaderCore.MappedPathExact` | memloader/memloader_core.c:93-104 | the contiguous path loads an image if and only if it is empty or the block size is not negative |
| `MemloaderCore.PagedWriteStays` | memloader/memloader_core.c:118-136 | the page loop leaves the driver's count where it was if and only if there was nothing to copy or its first mapping was refused |
| `MemloaderCore.FirstByteOfCallback` | memloader/memloader_core.c:119-121 | the first byte a page callback writes comes from the start of the page, wherever the callback starts |
| `MemloaderCore.MisalignedBlocksCorrupt` | memloader/memloader_core.c:119-121 | for every block size that is no multiple of the page size and smaller than the image there is an image that the page path corrupts |
| `MemloaderCore.PagePathExact` | memloader/memloader_core.c:118-136 | the page path loads every image of a size if and only if that size is 0, the block size is at least that size, or the block size is a non-negative multiple of the page size |
| `MemloaderCore.PathsAgreeExact` | memloader/memloader_core.c:86-137 | the two paths end alike, in memory, count and result, on every image of a size if and only if that size is 0, the block size is at least that size, or the block size is a non-negative multiple of the page size; with a negative one they agree on no image |
| `MemloaderDevice.Memloader.Load` | memloader/memloader_core.c:47-62 | the in-place copy has the outcome of LoadPiece |
| `MemloaderDevice.Memloader.CopyPage` | memloader/memloader_core.c:119-135 | one round leaves the rest of the page loop with a page less to write, or gives up |
| `MemloaderDevice.Memloader.WritePages` | memloader/memloader_core.c:118-136 | for a count of either sign the loop computes the recursive outcome, or stops where that goes beyond the pages |
| `MemloaderDevice.Memloader.Write` | memloader/memloader_core.c:76-140 | memloader_write changes memory and byte count as the specification of one callback says, on every path |
| `MemloaderDevice.Memloader.LoadBlock` | memloader/firmware.c:116-128 | one round of the load loop with all mappings granted makes progress and keeps the loaded prefix |
| `MemloaderDevice.Memloader.LoadFirmware` | memloader/firmware.c:116-143 | with all mappings granted, and from pages whenever every block starts on a page boundary, the load loop ends with the whole image at the load address, no other byte changed, and both counts equal to the size |
| `FirmwareProof.EveryStepKeepsInv` | memloader/firmware.c:56-190 | every step of every task, and every unlocked cancel, delete, block-size change and load-address change, keeps the invariant |
| `FirmwareProof.InvHolds` | memloader/firmware.c:56-190 | the invariant holds in every reachable state |
| `FirmwareProof.SizeStep` | memloader/memloader_core.c:86-91 | the two reads of the block size keep the invariant, whatever they find |
| `FirmwareProof.PageStep` | memloader/memloader_core.c:118-136 | one page of the page loop keeps the counts in agreement |
| `FirmwareProof.PageKeepsBytes` | memloader/memloader_core.c:118-136 | one page of the page loop extends the prefix of the image that is in memory by exactly what it counts |
| `FirmwareProof.OwnerBytes` | memloader/firmware.c:87-187 | every step of the lock owner keeps in memory the prefix of the image that the counts speak of |
| `FirmwareSafety.LoadedMeansLoaded` | memloader/firmware.c:87-168 | in every interleaving, a step that moves the state to FW_LOADED is the commit of a load that began at some earlier step and that nobody cancelled or deleted before its final state was read; the counts agree, and are the bytes to load if and only if no callback of it found the block size zero at its second read, as none does if nobody set it to zero; if nobody changed the load address, and for pages every block size in force was a non-negative multiple of the page size or at least the total, memory holds the counted bytes and every other byte is as it was at that earlier step |
| `FirmwareSafety.CancelledTooLate` | memloader/firmware.c:161-168 | in every interleaving, a load during which someone cancels or deletes comes to its commit if and only if every cancellation came after its final state was read; its next step then sets FW_LOADED and returns 0 |
| `FirmwareSafety.LostCancel` | memloader/firmware.c:64-67 | a cancellation or deletion that comes when the final state has been read is overwritten by FW_LOADED |
| `FirmwareSafety.UnderWayStep` | memloader/firmware.c:64-168 | what every action does to a load under way: which cancellations, moves and block sizes count, and that a load under way was so before or has just entered FW_LOADING |
| `FirmwareSafety.NeverZeroed` | memloader/memloader_core.c:86-91 | a callback finds zero at its second read only if the block size was set to zero during the load |
| `FirmwareSafety.TrailOdd` | memloader/memloader_core.c:86-137 | the least block size in force during a load that was negative or no multiple of the page size is the one that was noted |
| `FirmwareSafety.TornReadLoadsNothing` | memloader/memloader_core.c:86-91 | for every image of which any byte is to be loaded, and every nonzero block size, there is an interleaving that ends in FW_LOADED and returns 0 with no byte written |
| `FirmwareSafety.LoadBegan` | memloader/firmware.c:87-89 | every load under way, in every interleaving, entered FW_LOADING at an earlier step and was under way ever since |
| `FirmwareSafety.TrailMemory` | memloader/firmware.c:87-168 | the memory that a load is compared with is that of the step where it entered FW_LOADING, and so is the load address unless somebody moved it since; that somebody did is remembered |
| `FirmwareSafety.GoalExact` | memloader/firmware.c:105 | the bytes to load are the size cut to 32 bits, or none when that is negative as an int |
| `FirmwareSafety.NapExact` | memloader/firmware.c:137-141 | in every run a nap is taken exactly when a block or more has gone by since the last one |
| `FirmwareSafety.WholeImageExact` | memloader/firmware.c:105 | the bytes to load are the whole image if and only if its size is below 2^31 |
| `FirmwareSafety.WindowSafety` | memloader/firmware.c:87-180 | between entering FW_LOADING and the final switch the state is LOADING, EMPTY, DELETED or FAILED; the case that should never occur is unreachable; a cancelled load is not in LOADING and begins at most one more callback |
| `FirmwareSafety.LockDiscipline` | memloader/firmware.c:72-187 | in every reachable state the lock is held by exactly the task that stands between its lock and its unlock |
| `FirmwareSafety.LoopHead` | memloader/firmware.c:116-142 | at every loop head the counts agree and do not exceed the total, fewer than blocksize bytes went by since the last nap if the block size is positive and was not changed, and that much of the image is loaded unless the load address changed or pages were copied in odd sizes |
| `FirmwareSafety.StrayOnlyOdd` | memloader/memloader_core.c:118-121 | a loader reads beyond the pages only from the page source and only after a block size below the total that was negative or no multiple of the page size |
| `FirmwareStates.StateHistory` | memloader/firmware.c:64-184 | in every run a cancel leaves FW_EMPTY and a delete FW_DELETED; otherwise only the lock owner changes the state, to FW_LOADING from EMPTY, FAILED or DELETED, to FW_LOADED at its commit, and to FW_FAILED at its three failures |
| `FirmwareStates.OnlyStopsLeaveLoaded` | memloader/firmware.c:64-85 | what is FW_LOADED stays so until a cancel or a delete |
| `FirmwareStates.LoadingMeansUnderWay` | memloader/firmware.c:72-88 | FW_LOADING does not outlive the lock, so no load ever finds it |
| `FirmwareStates.EntryExact` | memloader/firmware.c:74-89 | in every run a load whose check finds FW_LOADED or FW_DELETED returns -EINVAL with counts and memory untouched, and any other enters FW_LOADING with counts of zero |
| `FirmwareStates.NextLoadAfterStop` | memloader/firmware.c:64-88 | in every run the next load after a cancel enters FW_LOADING, the next load after a delete returns -EINVAL |
| `FirmwareStates.FailedRequestReturns` | memloader/firmware.c:95-101 | in every run a load whose firmware is not found leaves FW_FAILED and returns the error of the request, with memory untouched |
| `FirmwareStates.DecidedReturns` | memloader/firmware.c:187-189 | the value decided is the value returned, and the lock is given back |
| `FirmwareStates.CallIsOver` | memloader/firmware.c:189 | after its return a load does nothing more |
| `FirmwareReturns.ReturnExact` | memloader/firmware.c:162-187 | in every run the final switch commits, returns -EIO for a cancelled load, and returns 0 for a failed one if and only if the failing callback had not copied anything |
| `FirmwareReturns.ZeroReturn` | memloader/firmware.c:152-187 | in every run a load comes to return 0 only by a commit or after a callback that failed without copying anything |
| `FirmwareReturns.BrokenBy` | memloader/memloader_core.c:93-139 | what a failing callback had copied: nothing without pages, the pages before the refused one otherwise |
| `FirmwareReturns.CallbackAlone` | memloader/memloader_core.c:76-140 | step by step and undisturbed, the callback has the outcome that it has as a whole |
| `FirmwareReturns.FailedLoadReturns` | memloader/firmware.c:116-187 | for every source, block size and supply of mappings, a load whose callback fails ends undisturbed in FW_FAILED and returns 0 if and only if the callback was refused its first mapping or has no pages, -EIO otherwise |
| `FirmwareProgress.OwnerDescends` | memloader/firmware.c:72-187 | every step of the lock owner lowers a rank, or is the unlock |
| `FirmwareProgress.OthersKeepRank` | memloader/firmware.c:64-67 | no step of anybody else changes the owner's position or rank |
| `FirmwareProgress.HoldIsBounded` | memloader/firmware.c:111-187 | once the firmware is found, the owner takes no more steps under the lock than its rank says, in every interleaving |
| `FirmwareProgress.OwnerCanStep` | memloader/firmware.c:72-187 | in every reachable state the owner has a next step unless it has read beyond the pages, so every other load reaches its unlock |
| `FirmwareProgress.LoopProgress` | memloader/firmware.c:122-128 | every callback that lets the loop go on brings the current count closer to the total, which does not change |
| `LimitFsTree.WalkExact` | test_suite/limitfs.c:42-70 | on every tree the walk counts at least the bytes stored, and exactly those if and only if the tree is tidy |
| `LimitFsTree.FlatIsTidy` | test_suite/limitfs.c:52-67 | a directory without subdirectories is tidy |
| `LimitFs.StepKeepsCovered` | test_suite/limitfs.c:202-349 | every operation keeps the cached size at or above the bytes stored |
| `LimitFs.RunKeepsCovered` | test_suite/limitfs.c:202-349 | so it is in every run on every tree, in whatever order directories are read |
| `LimitFs.QuietStep` | test_suite/limitfs.c:145-243 | a write, mknod or mkdir changes the cached size and the stored bytes by the same amount |
| `LimitFs.AdmittedWithinLimit` | test_suite/limitfs.c:145-229 | in every run a write or a new node is admitted only while the bytes stored are within the limit, and the cached size then changes by what was stored |
| `LimitFs.RenameUsage` | test_suite/limitfs.c:310-329 | a rename never adds bytes and discards exactly those of the file it replaces |
| `LimitFs.RecomputeExact` | test_suite/limitfs.c:245-349 | a recomputation makes the cached size exact if and only if the tree is tidy |
| `LimitFs.StaysExact` | test_suite/limitfs.c:202-349 | an exact cached size stays exact if and only if the operation does not walk an untidy tree and does not rename over stored bytes |
| `LimitFs.FlatRunIsExact` | test_suite/limitfs.c:42-76 | on one-level directories, as long as no rename that takes effect discards stored bytes, the cached size equals the sum in every run |
| `LimitFsNames.OperationExact` | test_suite/limitfs.c:145-349 | for every operation and every path, what is found there afterwards in terms of what was found before: a write or truncation sets one size, a creation or removal one path, a rename moves a whole subtree, and nothing else changes |
| `LimitFsNames.RunIsExact` | test_suite/limitfs.c:145-349 | so it is for every operation of every run on a tree with distinct names |
| `LimitFsNames.RenameLook` | test_suite/limitfs.c:310-329 | exactly when a rename takes effect, and what is found at, below and apart from both paths |
| `LimitFsDevice.AddDirSize` | test_suite/limitfs.c:42-70 | the recursive loop adds to the caller's counter what the walk function says |
| `LimitFsDevice.Quota.constructor` | test_suite/limitfs.c:377-407 | mounting starts with a walk, whose sum covers what is stored and equals it if and only if the tree is tidy |
| `LimitFsDevice.Quota.Recompute` | test_suite/limitfs.c:72-76 | a successful walk makes the cached size cover what is stored, whatever it was before, and exact if and only if the tree is tidy; a failed one leaves its partial sum, whatever that is |
| `LimitFsDevice.Quota.DoWrite` | test_suite/limitfs.c:202-229 | a write is admitted only while the bytes stored are within the limit; the cached size changes by what was stored and goes on covering it |
| `LimitFsDevice.Quota.DoTruncate` | test_suite/limitfs.c:245-260 | the new tree, and a cached size that covers it even if it did not before, exact if and only if the tree is tidy |
| `LimitFsDevice.Quota.DoUnlink` | test_suite/limitfs.c:331-349 | the new tree, and a cached size that covers it even if it did not before, exact if and only if the tree is tidy |
| `LimitFsDevice.Quota.DoRmdir` | test_suite/limitfs.c:292-308 | the new tree, and a cached size that covers it even if it did not before, exact if and only if the tree is tidy |
| `LimitFsDevice.Quota.DoMknod` | test_suite/limitfs.c:145-167 | admission as for a write; neither the bytes stored nor the cached size change, and a node that is created is found as an empty file where there was none |
| `LimitFsDevice.Quota.DoRename` | test_suite/limitfs.c:310-329 | no byte is added, exactly the bytes of a replaced file go, and the unchanged cached size goes on covering what is stored |
| `Cbpf.DhcpFilterExact` | test_suite/netrelay/dhcp_filter.c:78-95 | the table accepts a byte string of any length if and only if every load fits, it is 0x8100-tagged with an identifier other than 4094, carries IPv4 and UDP with fragment offset zero, and has destination port 68 behind the variable-length header |
| `Cbpf.FragmentTest` | test_suite/netrelay/dhcp_filter.c:88-90 | from the flags load on, only unfragmented packets go on, with the header length in X |
| `Cbpf.PortTest` | test_suite/netrelay/dhcp_filter.c:91-94 | the indexed load compares the port behind a header of any length |
| `Cbpf.EoeFilterExact` | test_suite/netrelay/eoe_filter.c:68-78 | the table accepts a byte string of any length if and only if it has at least 40 bytes, operation code 1 and a protocol type other than 0x08ab |
| `Vlan.DhcpTciValue` | test_suite/netrelay/dhcp_filter.c:153-175 | what setDhcpVlan makes of every tag: the predecessor, 4093 for 1, and all ones for 0 |
| `Vlan.OamTciValue` | test_suite/netrelay/dhcp_filter.c:177-199 | what setOamVlan makes of every tag: the successor, 1 for 4093, and a carry into the bits above for 4095 |
| `Vlan.PermutationOfDomain` | test_suite/netrelay/dhcp_filter.c:153-199 | on identifiers 1 to 4093 the two are inverse permutations that keep the top four bits |
| `Vlan.OamRoundTrip` | test_suite/netrelay/dhcp_filter.c:153-199 | exactly which tags come back from setDhcpVlan then setOamVlan |
| `Vlan.DhcpRoundTrip` | test_suite/netrelay/dhcp_filter.c:153-199 | exactly which tags come back from setOamVlan then setDhcpVlan |
| `Vlan.OnlyCollision` | test_suite/netrelay/dhcp_filter.c:153-175 | among tags with an identifier only 1 and 4094 collide, and the filter keeps out 4094 |
| `Vlan.RetagExact` | test_suite/netrelay/dhcp_filter.c:153-199 | byte by byte, what each direction makes of a frame of 16 bytes or more: only frames tagged 0x8100 change, and only in the two tag bytes |
| `Vlan.RetagRoundTrip` | test_suite/netrelay/dhcp_filter.c:153-199 | on whole tagged frames of any length from 16 bytes on: exactly which come back, every other byte included |
| `Vlan.FilteredFramesComeBack` | test_suite/netrelay/dhcp_filter.c:78-199 | every frame that the DHCP table accepts and that has an identifier comes back unchanged |
| `Transfer.WriteLoop` | test_suite/netrelay/relay.c:180-197 | under any pattern of short writes and interruptions exactly the bytes that the calls offer before the first end or error are sent, in order; complete if and only if that is all, otherwise the reason is that first end or error |
| `Transfer.Drain` | test_suite/memutil/mem_ops.c:149-173 | the loop never moves more than it has, and completes exactly when everything is moved |
| `Transfer.DrainExact` | test_suite/memutil/mem_ops.c:149-173 | the loop moves the sum of the counts before the first end or error, or all there is, and is complete if and only if that sum is enough |
| `Transfer.AgainChangesNothing` | test_suite/memutil/mem_ops.c:154-160 | an interruption anywhere changes nothing |
| `Eoe.Padded` | test_suite/netrelay/eoe_filter.c:223-231 | the payload, followed by zeros up to at least 64 bytes |
| `Eoe.FrameFields` | test_suite/netrelay/eoe_filter.c:193-231 | the frame read by position, in either byte order: both addresses, the tag 0x81000FFE, the operation code, zeros, and the payload padded to 64 bytes |
| `Eoe.RoundTrip` | test_suite/netrelay/eoe_filter.c:193-237 | removing an added header yields the payload zero-padded to 64 bytes, and the payload itself exactly when it was long enough |
| `Eoe.OwnFramesAreFiltered` | test_suite/netrelay/eoe_filter.c:68-78 | no frame that the relay builds passes the EoE table, in either byte order and either bit-field order |
| `Eoe.AcceptedFramesAreLong` | test_suite/netrelay/eoe_filter.c:68-78 | every accepted frame has room for a header |
| `Eoe.LengthFieldExact` | test_suite/netrelay/eoe_filter.c:217-218 | the 16-bit length field of the frame, read in the byte order of the machine, is the padded length plus four if and only if the payload has at most 65531 bytes |
| `Relay.Buffer.constructor` | test_suite/netrelay/eoe_filter.c:151-157 | the allocation has room for the largest IP packet, and for a header where one is added or removed |
| `Relay.Buffer.Prepare` | test_suite/netrelay/eoe_filter.c:159-164 | an empty window, with room in front where a header is going to be added |
| `Relay.Buffer.Fill` | test_suite/netrelay/relay.c:163-177 | the window holds the packet, cut to the room behind it |
| `Relay.Buffer.Extend` | test_suite/netrelay/eoe_filter.c:223-231 | the window holds the padded payload |
| `Relay.Buffer.AddHeader` | test_suite/netrelay/eoe_filter.c:193-221 | the window stays inside the allocation and holds the encapsulated payload |
| `Relay.Buffer.DelHeader` | test_suite/netrelay/eoe_filter.c:233-237 | the window stays inside the allocation if and only if there was a header, and then holds the frame without it |
| `Relay.Buffer.SetVlan` | test_suite/netrelay/dhcp_filter.c:153-199 | a window of any length becomes the retagged frame; up to 14 bytes it stays as it is, and at 15 the missing byte is the stale one in the buffer |
| `Relay.Buffer.Apply` | test_suite/netrelay/eoe_filter.c:182-191 | the window stays inside the allocation if and only if a frame to unwrap has a header, and then holds the edited frame |
| `Relay.Buffer.Forward` | test_suite/netrelay/relay.c:160-199 | for every packet and edit the window stays inside the allocation if and only if a packet to unwrap is as long as a header, as every packet is that the EoE table accepts; then what was received leaves in its edited form as far as the writes let it through, all of it if and only if they offer enough |
| `LogBuffer.SplitIsLines` | logbuffer/logbuffer.c:45-62 | the line split used as specification rebuilds the text and no line contains a newline |
| `LogBuffer.SplitIsUnique` | logbuffer/logbuffer.c:45-62 | no other lines and tail without newlines make the same text |
| `LogBuffer.IndexMask` | logbuffer/logbuffer.c:53 | in pieces of at most 0x8000 bytes the index mask is the identity |
| `LogBuffer.FinishLine` | logbuffer/logbuffer.c:59-60 | the terminated local buffer prints as the line it held |
| `LogBuffer.Process` | logbuffer/logbuffer.c:49-71 | exactly the complete lines of the CR-free input are printed, each cut to 2046 bytes and its newline and up to its first NUL; no index leaves the 2048-byte buffer |
| `LogBuffer.PiecesCover` | logbuffer/logbuffer.c:148-156 | the pieces are the region, in order, each of 0x8000 bytes except that the last may be shorter |
| `LogBuffer.PlainRegion` | logbuffer/logbuffer.c:140-156 | as long as the end offset does not wrap, exactly the regions behind the 40 bytes of the header are let through, and printed in pieces |
| `LogBuffer.WrappedRegion` | logbuffer/logbuffer.c:140-143 | an end offset that wraps is let through if and only if what remains of it lies within the mapping |
| `LogBuffer.NoCrExact` | logbuffer/logbuffer.c:53-56 | carriage returns go and every other byte stays in its place |
| `LogBuffer.PlainLine` | logbuffer/logbuffer.c:57-69 | a line without NULs is printed with its newline, up to 2046 bytes of it |
| `LogBuffer.Show` | logbuffer/logbuffer.c:115-156 | nothing is printed for offsets that the check refuses; otherwise, with sums that wrap at 64 bits, every piece lies inside the mapping if and only if StaysInside holds of the offsets, and then the region is printed piece by piece |
| `LogBuffer.NextPiece` | logbuffer/logbuffer.c:148-155 | a piece of the loop ends inside the mapping and moves offset and position together, or the offsets wrap badly |
| `LogBuffer.PiecewiseExact` | logbuffer/logbuffer.c:148-156 | for any list of pieces, what is printed one by one is what their concatenation would print if and only if every boundary is clean |
| `LogBuffer.PrintJoin` | logbuffer/logbuffer.c:57-69 | losing the unfinished rest in front of a line does not show if and only if there is none, it has its first NUL where the line has one behind the same bytes, or both are cut to the same bytes |
| `LogBuffer.ShowExact` | logbuffer/logbuffer.c:148-156 | the same for the pieces that the loop takes |
| `LogBuffer.NewlineBoundariesAreClean` | logbuffer/logbuffer.c:148-156 | boundaries just after a newline are clean |
| `Registers.WriteBits` | generic/generic_access.c:144-168 | with any option set, masked bits take the value; the others keep theirs, or are cleared by a plain write |
| `Registers.WriteReport` | generic/generic_access.c:144-168 | the report from the bits alone: MAYBE for every plain write and full mask, otherwise SURE if and only if an option asks for a write and a masked bit differs |
| `Registers.SplitWriteExact` | generic/generic_access.c:176-196 | for every content, mask, value and options, two halves leave the same bits as one word if and only if an option is set, the mask is full, or neither half changes anything |
| `Registers.SplitReportsSound` | generic/generic_access.c:190-195 | SURE and NONE of the split write imply the same of the native write, and a native SURE is reported as SURE or MAYBE |
| `Registers.SplitReadIsZero` | generic/generic_access.c:245-257 | the split read is always zero, and so agrees with the native read if and only if that is zero |
| `Registers.Bank.RegWrite` | generic/generic_access.c:144-168 | content, report and the number of bus writes of a masked write; other words are untouched |
| `Registers.Bank.RegWriteDouble` | generic/generic_access.c:179-196 | in either byte order the two word writes act on the double word as the split specification says, each half on the word it belongs to, and touch no other word |
| `Leds.OwnBits` | led/led_support.c:52-70 | after a set the LED's own bits read as asked, for either polarity |
| `Leds.OtherBits` | led/led_support.c:64-67 | bits outside the mask keep their value |
| `Leds.DisabledLed` | led/led_support.c:28-60 | a disabled LED cannot be set and reads as its polarity makes of clear bits |
| `Leds.SetOne` | led/led_support.c:28-70 | setting one LED changes the reading of that LED, unless it is disabled, and of no other |
| `Leds.EachLedShowsItsLastValue` | led/led_support.c:28-70 | for any number of LEDs on disjoint bits and any sequence of calls, each that is not disabled reads full exactly when its own last value was nonzero |
| `Leds.QueueEqualsDirect` | led/led_support.c:81-112 | for every interleaving of submissions and worker steps, draining the queue leaves the registers that direct calls in submission order leave |
| `Leds.LedDriver.SetNow` | led/led_support.c:52-70 | the in-place read-modify-write is the specified set |
| `Leds.LedDriver.BrightnessSet` | led/led_support.c:81-103 | a call is queued or done at once, and either way is the last of all calls |
| `Leds.LedDriver.Flush` | led/led_support.c:106-111 | the worker empties the queue and applies every item in order |
| `TarOctal.ParseOctal` | test_suite/smemcap.c:35-40 | reading an octal field that was printed at any width gives the number back |
| `TarOctal.FieldRoundTrip` | test_suite/smemcap.c:35-40 | a number comes back from a field if and only if it has no more digits than the field, even where its terminator is overwritten |
| `TarReader.NameExact` | test_suite/smemcap.c:34-35 | a path comes back if and only if it has at most 100 bytes |
| `TarReader.OwnerExact` | test_suite/smemcap.c:35-37 | the low nine bits of every mode come back; user and group come back if and only if they have at most eight octal digits |
| `Tar.Columns` | test_suite/smemcap.c:35-45 | the fixed columns of the header: seven digits and a NUL for permissions, owners and time as far as they fit, eleven for the size, six for the sum, then a blank and the type |
| `TarReader.NumbersBack` | test_suite/smemcap.c:38-39 | size and time come back for every 32-bit value |
| `Tar.CharSumExact` | test_suite/smemcap.c:43-44 | the sum of plain chars is the sum of the bytes if and only if chars are unsigned or no byte is 128 or more |
| `TarReader.NegativeSum` | test_suite/smemcap.c:43-45 | a negative sum of signed chars, printed as an unsigned int, never makes a valid checksum |
| `TarReader.ChecksumBack` | test_suite/smemcap.c:40-45 | a header has the checksum that a reader computes, blanks included, if and only if chars are unsigned or no byte of it is 128 or more |
| `TarReader.PathDecides` | test_suite/smemcap.c:34-45 | for a path that fits its field that is the case exactly when the path is ASCII |
| `TarReader.PaddedSize` | test_suite/smemcap.c:77 | the data takes the least number of whole blocks |
| `TarReader.EntryBack` | test_suite/smemcap.c:26-86 | a reader gets back every field, of the mode the low nine bits, and the content of an entry, and what follows it |
| `TarReader.ArchiveBlocks` | test_suite/smemcap.c:77-85 | every archive is a whole number of blocks |
| `TarReader.ArchiveRoundTrip` | test_suite/smemcap.c:26-86 | a reader gets back every entry of every list of storable entries, whatever their modes |
| `TarWriter.PrintAt` | test_suite/smemcap.c:34-40 | sprintf stores the string and its terminator in place and nothing else |
| `TarWriter.Checksum` | test_suite/smemcap.c:43-44 | the loop sums all bytes as plain chars of either signedness |
| `TarWriter.WriteHeader` | test_suite/smemcap.c:26-48 | the prints in the order of the source leave the specified header |
| `TarWriter.BufferFile` | test_suite/smemcap.c:61-68 | the list of blocks holds what was read, then zeros, and the size is its length |
| `TarWriter.CapturedExact` | test_suite/smemcap.c:61-68 | the bytes captured are those of all reads up to and with the first short one |
| `TarWriter.ArchiveFile` | test_suite/smemcap.c:50-86 | what is written is the entry for the bytes captured, and a reader gets that file back with its permissions |
| `MemUtil.PageBase` | test_suite/memutil/mem_ops.c:65-66 | masking with the complement rounds the address down to its page |
| `MemUtil.MapLengthFits` | test_suite/memutil/mem_ops.c:68-70 | without overflow the length is the least multiple of the page size that is enough |
| `MemUtil.MapWindowExact` | test_suite/memutil/mem_ops.c:65-70 | for every power of two as page size, the mapping is the least page-aligned window over the region if and only if the rounded sum fits 64 bits |
| `MemUtil.ReadDrain` | test_suite/memutil/mem_ops.c:123-147 | reads never move more than the region or the file has, and complete exactly when the region is full |
| `MemUtil.ReadDrainExact` | test_suite/memutil/mem_ops.c:123-147 | the loop moves the least of what the region takes, the file has and the calls offer, and is complete if and only if file and calls have enough |
| `MemUtil.ReadEndsBy` | test_suite/memutil/mem_ops.c:128-141 | otherwise the first read that ends the loop says why: an error, the end of the file, or none yet |
| `MemUtil.SafeRead` | test_suite/memutil/mem_ops.c:123-147 | under any pattern of short reads and interruptions memory holds the file's prefix in place and is unchanged elsewhere |
| `MemUtil.Save` | test_suite/memutil/mem_ops.c:175-208 | the file holds what the calls let through of the region, and the save succeeds if and only if they offer all of it |
| `MemUtil.Load` | test_suite/memutil/mem_ops.c:210-243 | it succeeds if and only if file and calls have enough, and then the region is the start of the file; nothing outside the region ever changes |
| `MemUtil.SaveThenLoad` | test_suite/memutil/mem_ops.c:175-243 | both succeed if and only if their calls offer enough, and then reproduce the region, whatever happened to memory in between |

## Left out

- gfifo: the other gfifo drivers repeat this protocol with another capacity; `llseek`, `fasync` with its signals and the ioctl error case would add one-branch members.
- The gmem drivers, character-device, misc and platform registration, device-tree, sysfs and kobject code, the watchdog, uio, interrupt and netlink drivers, and the remaining test programs: kernel interface calls or easy loops.
- FirmwareSafety.LoadedMeansLoaded: one firmware context and one driver instance.
- Firmware: the optional read callback, which memloader does not have; what the last page holds behind the image counts as zeros, which only a negative block size copies; the counter of a negative block size does not wrap at 32 bits.
- LimitFs.RunKeepsCovered: walks succeed and no sum exceeds 64 bits; `Quota` shows what the code stores otherwise.
- LimitFsNames.RunIsExact: names in a directory are distinct, as file systems keep them.
- limitfs: hard and symbolic links, writes through a handle whose path was renamed, path lengths beyond the buffers, and writes of one file through two handles at the same time.
- LimitFsDevice: `mkdir` changes no counter and has no class method; it is an operation of `LimitFs`.
- netrelay: sockets, tap devices, threads and logging; reads and writes are given by lists of outcomes.
- logbuffer: the magic check, allocation failure, and mappings of 2^63 bytes or more.
- Registers: the lock is taken once per half, so nothing is said about another writer between the halves; the hooks for foreign address ranges.
- Leds: allocation failure, callers that race with each other, changes of the disabled flag, and the enable register.
- TarReader.ArchiveRoundTrip: paths are shorter than a block, contents smaller than 2 GiB because the source counts in an int; a write that fails or is cut short; the directory scan of `main`.
- MemUtil: option parsing, mmap itself and file opening.
