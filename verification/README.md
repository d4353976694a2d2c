# Verified models of the storage and memory cores of xv6 with software RAID

This project models, in Dafny 4.11, the parts of the kernel and of its user library that carry the
hardest promises, and proves those promises for all inputs, all runs and all interleavings.
`dafny verify dfyconfig.toml` checks everything.

| files | what they model |
|---|---|
| `Params`, `Seqs` | build parameters and lists shared by several modules |
| `Arith`, `Blocks`, `RaidMeta` | products and quotients, blocks under XOR, the record in block 0 |
| `ParityRaid`, `ParityRuns` | RAID 4 and RAID 5: address map, steps, whole runs |
| `MirrorRaid`, `StripeRaid` | RAID 1 and RAID 0+1; RAID 0 |
| `RaidDevice` | the engine of raid.c: shared cache, loops, locking, dispatch; each call proved equal to a step above |
| `RaidRuns` | the engine driven by any list of calls, restarts and lost disks |
| `RedoLog`, `LogSpace`, `LogDevice` | log.c: crash behaviour, space reservation, and the code that makes both |
| `DiskLayout`, `FileSystem` | fs.c and the write loop of file.c: bitmap, block maps, file contents, transaction size |
| `FileCrash` | the file system's state on a disk with a log: what a crash leaves of every file |
| `LruList`, `BufferCache` | bio.c: the linked list and the cache over it |
| `BlockView` | what the log asks of the cache, stated once for both |
| `KrHeap`, `Malloc` | umalloc.c: the circular free list and malloc, free, morecore |
| `PageTable`, `AddressSpace`, `VirtualMemory` | vm.c and kalloc.c: Sv39 trees, page ownership, address spaces |
| `PageCount` | how many pages a range of user pages costs, tables included |
| `SleepWakeup` | sleep, wakeup, kill and the scheduler of proc.c, for any channels, locks and conditions, as interleaved atomic steps |
| `SleepProgress` | what its calls get done when nobody is in the way |
| `SleepLock`, `LogWait` | its users: any number of sleeplocks, and the waiting in begin_op |
| `Grep` | the regular-expression matcher of grep.c |

How the parts fit together:

* **RAID.** The numbers of disks and blocks are symbolic. A level is a set of step functions on the disks
  alone, because the working flags live in block 0 of each disk. A run is any sequence of reads, writes,
  failures, repairs, and, where stated, failed disks losing their data at any moment. The class `Device`
  has the caches, the loops and the buffers of the C code, and every one of its calls is proved to return
  and leave exactly what the step function says. `RaidRuns.Run` drives it with any list of calls, restarts
  and lost disks among them, and states the result in terms of the calls made and the replies got: which calls
  report success, and what the reads return. `RaidRuns.RunFromInit` starts it on fresh images.
* **Logging.** Commit and recovery are sequences of single block writes. A crash is a prefix of such a
  sequence; recovery can itself be cut off and restarted any number of times. The class `Log` is proved to
  issue exactly those sequences, and a whole operation on it, from begin_op to end_op, has the effect its
  writes would have without a log.
* **Sleeping.** One machine has every process at its place in sleep, wakeup or outside, every process lock,
  and any number of channels, each with its own lock and its own condition. wakeup goes from process to
  process. Sleeplocks and begin_op are programs on top of it; their theorems are instances of its. What no
  interleaving can spoil is one half; the other is that each call reaches its end by its own steps.
* **Files.** The disk image holds real bitmap bytes and real little-endian indirect blocks. A file's
  contents are defined from them. All claims about contents are equations between byte sequences. Every
  change of the image is covered by a logged block, which is what lets `FileCrash` put it through the log, in
  whatever order the blocks were logged.
* **Cache.** `store` is what a disk without a cache would hold. The cache's methods are the atomic sections
  its locks make, so any sequence of calls is an interleaving.
* **Heap and page tables.** Every unit, or page, has exactly one owner at every moment; conservation is a
  consequence and not a bookkeeping variable. Growing and copying an address space succeed exactly when the
  free list holds the pages asked for and the table pages missing.

Where the code and its comments or documentation part ways, the model follows the code and the difference
is stated as a lemma with the exact condition and an input that shows the failure:

* RAID 0 refuses one block number below the size it reports (`StripeRaid.ReportedRangeIff`).
* RAID 0 forgets its level if a disk fails after a restart before anything was read or written
  (`RaidRuns.FailAfterRestart`, `RaidDevice.Device.FailAfterReboot`).
* RAID 4 reports success for writes it drops (`ParityRuns.Raid4LostWrite`, `ParityRuns.Raid4LostWriteExample`).
* RAID 4 asks the cache, loaded or not, whether the parity disk works, and refuses a repair it should make
  after a restart before anything was read or written (`RaidDevice.Repair4Iff`, `RaidRuns.RepairAfterRestart`,
  `RaidDevice.Device.RepairAfterReboot`).
* RAID 5 computes parity from a failed disk's stale block (`ParityRuns.Raid5ReadBack`,
  `ParityRuns.Raid5StaleParityExample`).
* The calls on a missing RAID return with the lock held (`RaidDevice.Device.ReadRaid`,
  `RaidDevice.Device.ReadAfterReboot`).
* A log area of exactly LOGSIZE blocks, as mkfs makes it, can panic within a reservation
  (`LogSpace.NoPanicIff`, `LogSpace.ReservedPanicExample`).
* A full log panics on a block that would be absorbed (`LogSpace.AbsorbedPanicIff`,
  `LogSpace.AbsorbedPanicExample`).
* A request of 2^31 - 31 bytes or more, for which no block fits, makes morecore claim more memory than sbrk
  gave it (`Malloc.RequestCoveredIff`, `Malloc.LargestRequestExample`).

## Model

| member | source | states |
|---|---|---|
| Blocks.XorSwap | kernel/raid.c:618-622 | taking old data out of a sum and adding new data gives the sum with the new data |
| RaidMeta.DecodeEncode | kernel/raid.c:21-29 | a record stored in block 0 is read back unchanged, whatever the rest of the buffer holds |
| RaidMeta.SetFlagFormatted | kernel/raid.c:633-651 | recording a flag changes one disk's block 0 only and leaves every disk formatted for its level |
| ParityRaid.DataDisk | kernel/raid.c:753-764 | a data block never lies on the parity disk of its stripe; ParityRotates and DataInOrder say where both lie |
| ParityRaid.ParityRotates | kernel/raid.c:753-764 | RAID 5 parity is on the first disk for the first stripe and on the next disk around the ring for each further one; RAID 4 parity stays on the last disk |
| ParityRaid.ParityOnceAround | kernel/raid.c:753-764 | among any n stripes in a row every disk holds the RAID 5 parity exactly once |
| ParityRaid.DataInOrder | kernel/raid.c:753-764 | a stripe holds n-1 consecutive blocks in the order of the disks, the parity disk left out, one row per stripe from row 1 on |
| ParityRaid.AcceptedIff | kernel/raid.c:694-700 | the block numbers accepted by RAID 4 and 5 are exactly those below the reported capacity |
| ParityRaid.AddressRoundTrip | kernel/raid.c:563-572 | the block number can be recovered from its disk and row, so no two numbers share a location |
| ParityRaid.LocationRoundTrip | kernel/raid.c:753-764 | every non-parity location from row 1 on holds exactly one accepted block number |
| ParityRaid.RowSumSplit | kernel/raid.c:547-561 | the sum of a row is the sum the recovery loop computes plus the skipped disk's block |
| ParityRaid.Recoverable | kernel/raid.c:547-561 | in a row that sums to zero the recovery loop computes the skipped disk's block |
| ParityRaid.RebuildStep | kernel/raid.c:853-860 | rebuilding row by row gives the same rows as rebuilding all from the original disks; block 0 is spared |
| ParityRaid.RepairResult | kernel/raid.c:837-873 | a repair sets one flag, puts the sum of the other disks in each row of that disk, and changes nothing else |
| ParityRaid.FailResult | kernel/raid.c:817-835 | failing a disk clears its flag, touches no data row and no other disk |
| ParityRaid.DataResult | kernel/raid.c:782-815 | no data write reaches block 0 of any disk, so flags stay |
| ParityRaid.StepReady | kernel/raid.c:511-895 | every step of a run keeps all disks formatted for their level |
| ParityRaid.ReadCorrect | kernel/raid.c:563-591 | a read that returns 0, direct or reconstructed, delivers the plain array's block |
| ParityRaid.WriteIdeal | kernel/raid.c:782-815 | writing data and parity together keeps every row at zero sum and changes one block of the plain array |
| ParityRaid.WriteBalanced | kernel/raid.c:618-625 | the two-block parity update keeps a zero sum zero |
| ParityRuns.FailKeeps | kernel/raid.c:817-835 | failing a disk keeps the relation between the disks and the plain array |
| ParityRuns.RepairKeeps | kernel/raid.c:653-692 | a repair, successful or not, keeps that relation even if the disk held something else |
| ParityRuns.DamageKeeps | kernel/raid.c:547-561 | a failed disk's data may become anything without breaking that relation |
| ParityRuns.ModifyKeeps | kernel/raid.c:802-809 | a write keeps it whenever the failed disk cannot enter the new parity, or still holds the old block |
| ParityRuns.Raid4ReadsLastWrites | kernel/raid.c:547-692 | over any run with failed disks losing data at any time, each successful RAID 4 read gives the last block stored while its disk and the parity disk worked |
| ParityRuns.Raid4LostWrite | kernel/raid.c:593-631 | a RAID 4 write that reports success is read back if and only if the parity disk was up |
| ParityRuns.Raid4LostWriteExample | kernel/raid.c:612-613 | a concrete write that returns 0 and stores nothing |
| ParityRuns.IntactStep | kernel/raid.c:753-873 | every RAID 5 step, degraded writes included, keeps all rows of all disks balanced |
| ParityRuns.RepairRestores | kernel/raid.c:837-873 | on balanced disks a repair rewrites what was there |
| ParityRuns.Raid5ReadsLastWrites | kernel/raid.c:753-873 | over any run of calls every successful RAID 5 read gives the last write, and every row from 1 on still sums to zero |
| ParityRuns.Raid5SurvivesDamage | kernel/raid.c:753-873 | the same with failed disks losing data, as long as each write goes to a working disk or finds its parity disk down |
| ParityRuns.CurrentWrite | kernel/raid.c:782-815 | a write changes no block but its own, and stores another block instead of the given one only if the block's disk has lost its data and its parity disk works |
| ParityRuns.CurrentRepair | kernel/raid.c:837-873 | a successful repair gives the disk back its own data, whatever it held |
| ParityRuns.Raid5AnyDamage | kernel/raid.c:753-873 | over any run, with failed disks losing data at any moment and no condition on the writes, a successful read returns the last block stored; all that is lost are blocks written as above |
| ParityRuns.Raid5ReadBack | kernel/raid.c:782-815 | a degraded RAID 5 write is read back if and only if its disk works or still holds the old block |
| ParityRuns.Raid5StaleParityExample | kernel/raid.c:802-809 | a concrete run in which a failed disk loses its block and a later write is not read back |
| ParityRuns.ReadableIff | kernel/raid.c:563-591 | a block can be read if and only if it is accepted and its disk, or every other disk, works |
| ParityRuns.WritableIff | kernel/raid.c:593-635 | a write reports success if and only if the block is accepted and, on RAID 4, its disk works; a failure call if and only if the disk exists |
| ParityRuns.RepairedIff | kernel/raid.c:653-692 | a repair reports success if and only if the disk exists and all others work, or on RAID 5 the disk itself does; afterwards it works; an error changes nothing |
| ParityRuns.SingleFailureReadable | kernel/raid.c:563-591 | with at most one disk down exactly the accepted blocks can be read |
| ParityRuns.RepairRecovers | kernel/raid.c:837-873 | a repair brings back all rows of the disk from any state that agrees on the other disks |
| ParityRuns.FailDamageRepair | user/test.c:18-44 | fail a disk, lose all it held, repair it: every block of every disk is as before |
| ParityRuns.DoubleFailurePermanent | kernel/raid.c:547-561 | two failed disks never work again, whatever is called |
| ParityRuns.ZeroDisksBalanced | Makefile:68-69 | fresh all-zero images have balanced rows |
| ParityRuns.InitIntact | kernel/raid.c:722-751 | initialising balanced disks starts a correct array whose reads all succeed |
| MirrorRaid.AcceptedIff | kernel/raid.c:303-309 | accepted block numbers are exactly those below the reported capacity |
| MirrorRaid.AddressRoundTrip | kernel/raid.c:366-372 | a block number is determined by its mirrored group and row |
| MirrorRaid.LocationRoundTrip | kernel/raid.c:366-372 | every group and row from 1 on belongs to one accepted block number |
| MirrorRaid.RoundRobin | kernel/raid.c:361-372 | RAID 1 keeps blocks in order; RAID 0+1 deals them out to the pairs in turn, a row for each round |
| MirrorRaid.ReplicasDisjoint | kernel/raid.c:366-372 | two block numbers never share a copy's location |
| MirrorRaid.FirstUp | kernel/raid.c:203-212 | the scan finds the first working disk or none |
| MirrorRaid.ReadFrom | kernel/raid.c:374-388 | a read is served by a working copy whenever there is one |
| MirrorRaid.PairWrites | kernel/raid.c:393-425 | the two conditional writes of a pair write all working copies, and fail exactly when there is none |
| MirrorRaid.CopiedWhole | kernel/raid.c:462-476 | copying block 0 along and overwriting it equals copying the data rows only |
| MirrorRaid.PairRepair | kernel/raid.c:452-480 | the whole-disk copy and the flag written after it are the repair step, or the pair's other disk is down and nothing happens |
| MirrorRaid.RepairResult | kernel/raid.c:266-301 | a successful repair makes the disk a working copy of its source and changes nothing else |
| MirrorRaid.FailResult | kernel/raid.c:245-264 | failing a disk clears one flag and moves no data |
| MirrorRaid.FailedIff | kernel/raid.c:245-264 | a failure call reports success if and only if the disk is in range and works; it then stops working; an error changes nothing |
| MirrorRaid.DataResult | kernel/raid.c:224-243 | writes leave block 0 of every disk alone |
| MirrorRaid.WriteKeeps | kernel/raid.c:224-243 | after a successful write every working copy of every written block is current |
| MirrorRaid.RepairKeeps | kernel/raid.c:452-480 | a repair, even onto arbitrary contents, leaves every working copy current |
| MirrorRaid.MirrorReadsLastWrites | kernel/raid.c:198-301 | over any run with failed disks losing data, a successful read of a block written since initialisation is never stale |
| MirrorRaid.ReadableIff | kernel/raid.c:361-425 | reads and writes succeed exactly for accepted blocks with a working copy |
| MirrorRaid.RepairedIff | kernel/raid.c:266-301 | a repair reports success if and only if another disk with the same blocks works and, on RAID 1, this one does not; afterwards it works; an error changes nothing |
| MirrorRaid.GroupLossPermanent | kernel/raid.c:452-460 | once all copies of a block are down, no sequence of calls brings one back |
| MirrorRaid.InitInv | kernel/raid.c:172-196 | initialisation starts a run with all disks working and nothing written |
| StripeRaid.AcceptedIff | kernel/raid.c:80-90 | the accepted numbers are those below n*nb except (nb-1)*n |
| StripeRaid.ReportedRangeIff | kernel/raid.c:146-151 | every number below the reported capacity is accepted if and only if there is one disk |
| StripeRaid.AcceptedCount | kernel/raid.c:146-151 | the number of accepted block numbers is the reported capacity |
| StripeRaid.AddressRoundTrip | kernel/raid.c:80-90 | block numbers map one-to-one to locations and spare block 0 of the first disk |
| StripeRaid.LocationRoundTrip | kernel/raid.c:80-90 | every other location belongs to an accepted number |
| StripeRaid.RoundRobin | kernel/raid.c:80-90 | consecutive blocks go round the disks from the first on, a row for each round |
| StripeRaid.WritableIff | kernel/raid.c:98-121 | a write succeeds if and only if the array works and the number is below n*nb and not (nb-1)*n; it is then read back and no other block changes |
| StripeRaid.FailedIff | kernel/raid.c:123-139 | a failure call reports success if and only if the disk exists, and then the array is down |
| StripeRaid.FailKeepsLevelIff | kernel/raid.c:123-139 | failing a disk keeps the array recognisable if and only if the cached level was RAID 0 |
| StripeRaid.StripeReadsLastWrites | kernel/raid.c:73-144 | over any run, whatever level the cache held at a failure, a successful read gives the last write that WritableIff let succeed |
| StripeRaid.ReadableIff | kernel/raid.c:73-144 | after any such run the accepted blocks can be read if and only if no disk has failed |
| StripeRaid.FailurePermanent | kernel/raid.c:123-144 | after one failure every later read and write is refused and changes nothing |
| RaidDevice.CalculateParity | kernel/raid.c:542-545 | the loop leaves the XOR of both blocks in the parity buffer |
| RaidDevice.Serialize | kernel/raid.c:21-24 | the loop copies the record and leaves the rest of the buffer |
| RaidDevice.Device.Reboot | kernel/raid.c:18-47 | forgetting every cache loses nothing of an array that its disks record, whatever its level |
| RaidDevice.Device.LoadRaidDataCache | kernel/raid.c:31-47 | afterwards the cache agrees with block 0 of every disk (of the first for RAID 0) |
| RaidDevice.Device.StoreRecord | kernel/raid.c:257-261 | block 0 decodes to the cache entry and nothing else changes |
| RaidDevice.Device.MarkWorking | kernel/raid.c:293-298 | the restored disk's record says it works, in the cache and on the disk, and nothing else changes |
| RaidDevice.Device.InitAll | kernel/raid.c:722-751 | fresh records on all disks, data untouched, cache coherent |
| RaidDevice.Device.InitRaid0 | kernel/raid.c:55-71 | a record on the first disk only, and a loaded cache |
| RaidDevice.Device.ReadRaid0 | kernel/raid.c:73-96 | code and data of the RAID 0 read step |
| RaidDevice.Device.WriteRaid0 | kernel/raid.c:98-121 | disks and code of the RAID 0 write step, which StripeRaid.WritableIff makes succeed |
| RaidDevice.Device.DiskFailRaid0 | kernel/raid.c:123-139 | writes out whatever level the cache holds |
| RaidDevice.Device.InitRaid1 | kernel/raid.c:172-196 | refuses fewer than two disks, else initialises all |
| RaidDevice.Device.ReadRaid1 | kernel/raid.c:198-222 | code and data of the mirrored read step, -1 for negative numbers |
| RaidDevice.Device.WriteRaid1 | kernel/raid.c:224-243 | disks and code of the mirrored write step |
| RaidDevice.Device.DiskFailRaid1 | kernel/raid.c:245-264 | the failure step, cache kept coherent |
| RaidDevice.Device.DiskRepairedRaid1 | kernel/raid.c:266-301 | the repair step; a non-zero return leaves every block and flag unchanged |
| RaidDevice.Device.InitRaid01 | kernel/raid.c:334-359 | refuses odd or too few disks, else initialises all |
| RaidDevice.Device.ReadRaid01 | kernel/raid.c:361-391 | code and data of the paired read step |
| RaidDevice.Device.WriteRaid01 | kernel/raid.c:393-425 | disks and code of the paired write step |
| RaidDevice.Device.DiskFailRaid01 | kernel/raid.c:427-450 | the failure step, cache kept coherent |
| RaidDevice.Device.DiskRepairedRaid01 | kernel/raid.c:452-480 | the repair step; a non-zero return changes nothing |
| RaidDevice.Device.InitRaid4 | kernel/raid.c:511-540 | refuses fewer than two disks, else initialises all |
| RaidDevice.Device.InitRaid5 | kernel/raid.c:722-751 | initialises all disks |
| RaidDevice.Device.RecoverMissingBlock | kernel/raid.c:547-561 | the sum of a row over all other disks, or -1 if one of them is down |
| RaidDevice.Device.ReadRaid4 | kernel/raid.c:563-591 | code and data of the RAID 4 read step |
| RaidDevice.Device.WriteRaid4 | kernel/raid.c:593-631 | disks and code of the RAID 4 write step |
| RaidDevice.Device.ModifyParity | kernel/raid.c:618-625 | the read-modify-write sequence equals the update of data and parity |
| RaidDevice.Device.DiskFailRaid4 | kernel/raid.c:633-651 | the failure step |
| RaidDevice.Device.DiskRepairedRaid4 | kernel/raid.c:653-692 | the repair step as the cached parity flag decides it, cold cache included; it is the level's repair step if and only if that flag is true to the disk or not asked for; a non-zero return changes nothing |
| RaidDevice.Repair4Iff | kernel/raid.c:653-661 | repairing by the cached parity flag is the level's repair if and only if the flag is true to the disk or not asked for |
| RaidDevice.Device.RepairAfterReboot | kernel/raid.c:653-661 | straight after a restart the repair of a data disk is refused although all other disks work |
| RaidDevice.Device.Rebuild | kernel/raid.c:853-873 | the rebuild succeeds exactly when all other disks work, and gives up only before its first write |
| RaidDevice.Device.ReadRaid5 | kernel/raid.c:753-780 | code and data of the RAID 5 read step, at the rotated places of ParityRaid.ParityRotates |
| RaidDevice.Device.WriteRaid5 | kernel/raid.c:782-815 | disks and code of the RAID 5 write step, at the rotated places of ParityRaid.ParityRotates, flags ignored |
| RaidDevice.Device.DiskFailRaid5 | kernel/raid.c:817-835 | the failure step |
| RaidDevice.Device.DiskRepairedRaid5 | kernel/raid.c:837-873 | the repair step; a non-zero return changes nothing |
| RaidDevice.Device.CheckRaid | kernel/raid.c:921-941 | the level remembered, or else the one recorded on the first disk |
| RaidDevice.Device.InitRaid | kernel/raid.c:943-971 | succeeds exactly with disks enough for the level; then the level is recorded as working, the cache loaded and the array working, except RAID 5 on a single disk; failure leaves the disks alone |
| RaidDevice.Device.ReadRaid | kernel/raid.c:973-995 | the reply of the level in force; the lock stays held if and only if there is none |
| RaidDevice.Device.ReadAfterReboot | kernel/raid.c:973-982 | a restart on disks without an array, and the first call leaves the lock taken |
| RaidDevice.Device.WriteRaid | kernel/raid.c:997-1019 | the write step of the level in force, same lock rule |
| RaidDevice.Device.DiskFailRaid | kernel/raid.c:1021-1043 | the failure step of the level in force, same lock rule; on RAID 0 the record then holds the cached level |
| RaidDevice.Device.FailAfterReboot | kernel/raid.c:123-139 | restarting and then failing a disk takes the level off a RAID 0 array |
| RaidDevice.Device.DiskRepairedRaid | kernel/raid.c:1045-1067 | the repair step of the level in force, same lock rule |
| RaidDevice.Device.InfoRaid | kernel/raid.c:1069-1091 | reports exactly the capacity of the level, the block size and the number of disks |
| RaidRuns.InitHolds | kernel/raid.c:943-971 | initialised disks are all in use and hold nothing yet, on rows that sum to zero for the parity levels |
| RaidRuns.ReadHolds | kernel/raid.c:973-995 | at every level a successful read of a stored block returns it |
| RaidRuns.WriteHolds | kernel/raid.c:997-1019 | at every level a successful write is stored, but for RAID 4 without its parity disk and RAID 5 on a block whose disk lost its data |
| RaidRuns.RepairHolds | kernel/raid.c:1045-1067 | at every level a repair keeps every stored block, also when a cold cache refuses it |
| RaidRuns.ReadTold | kernel/raid.c:973-995 | at every level a read reports success if and only if the number is accepted and the disks it needs are in use |
| RaidRuns.WriteTold | kernel/raid.c:997-1019 | at every level a write reports success if and only if the number is accepted and, but for RAID 5, a disk to write to is in use |
| RaidRuns.FailTold | kernel/raid.c:1021-1043 | at every level a failure is reported taken exactly for an existing disk, on the mirrors one that is in use |
| RaidRuns.RepairTold | kernel/raid.c:1045-1067 | at every level when a repair reports success, but for a RAID 4 data disk, which a cold cache may refuse |
| RaidRuns.Do | kernel/raid.c:973-1067 | one call, restart or lost disk keeps the engine serving the stored blocks and reports success when it should |
| RaidRuns.Run | kernel/raid.c:921-1067 | driven by any list of calls with restarts and lost disks, at every level, every call reports success exactly when it should and no successful read is stale; only a RAID 0 array that is down can stop answering |
| RaidRuns.RunFromInit | kernel/raid.c:921-1067 | the same from init_raid on fresh images |
| RaidRuns.WriteThenRead | kernel/raid.c:943-1019 | on a fresh array of any level a write succeeds exactly at the accepted numbers and is read back |
| RaidRuns.FailAfterRestart | kernel/raid.c:123-139 | after a restart a failing disk leaves a RAID 0 array its level if and only if a read or write came first |
| RaidRuns.RepairAfterRestart | kernel/raid.c:653-692 | after a restart a RAID 4 repair is the level's repair if and only if a read or write came first, or the parity disk is repaired or down |
| RedoLog.InstallSome | kernel/log.c:69-83 | any number of home writes leaves the log as it was, keeps what the disk recovers to, and makes those blocks final |
| RedoLog.RecoveryDone | kernel/log.c:117-123 | a complete recovery leaves the recovered blocks in place and an empty log |
| RedoLog.InterruptedRecovery | kernel/log.c:117-123 | a recovery stopped anywhere leaves a disk that recovers to the same blocks |
| RedoLog.RecoveredHome | kernel/log.c:117-123 | recovery stopped and restarted any number of times ends with the same blocks |
| RedoLog.AtCommitLog | kernel/log.c:179-203 | up to the header write a commit changes the log area only, which then lists the new blocks |
| RedoLog.CommitPoint | kernel/log.c:103-114 | from the header write on, the disk recovers to the new blocks |
| RedoLog.CommitTail | kernel/log.c:194-203 | installing and erasing during a commit are the writes a recovery would make |
| RedoLog.CrashState | kernel/log.c:194-203 | what each crash point recovers to |
| RedoLog.CrashAtomicity | kernel/log.c:68-123 | stop a commit after any write and recovery any number of times: home blocks are all old up to the header write and all new after it |
| RedoLog.CommitDone | kernel/log.c:194-203 | an undisturbed commit leaves the new blocks and an empty log |
| RedoLog.CommittedHome | kernel/log.c:194-203 | committing transactions one by one gives the disk a plain store would have |
| RedoLog.PrefixConsistency | kernel/log.c:178-203 | wherever a sequence of transactions stops, recovery yields the state after a whole number of them |
| LogSpace.StepKeeps | kernel/log.c:126-235 | each critical section keeps the reservation, and panics only for lack of space |
| LogSpace.ReservationHolds | kernel/log.c:126-175 | in every interleaving logged blocks plus unspent reservations fit LOGSIZE, logged numbers are distinct, no operation is outstanding during a commit, and logged blocks nobody is outstanding for are being committed |
| LogSpace.AdmittedIff | kernel/log.c:126-142 | how many operations can begin in a row, given the blocks logged and the operations outstanding |
| LogSpace.NoPanicIff | kernel/log.c:220-221 | an operation with unspent reservation never panics if and only if the log area is larger than LOGSIZE |
| LogSpace.ReservedPanicExample | kernel/log.c:220-221 | for every log area up to LOGSIZE, a reachable state in which an operation panics within its reservation |
| LogSpace.AbsorbedPanicIff | kernel/log.c:219-233 | when a block already in the log makes log_write panic |
| LogSpace.AbsorbedPanicExample | kernel/log.c:219-233 | for every log area above LOGSIZE, a reachable full log in which an operation panics on its own block |
| LogDevice.Log.WriteLog | kernel/log.c:179-191 | issues exactly the log writes of the pinned contents |
| LogDevice.Log.WriteHead | kernel/log.c:103-114 | one write of the in-memory header over the old header block |
| LogDevice.Log.InstallTrans | kernel/log.c:69-83 | issues exactly the home writes and, after a commit, unpins those blocks |
| LogDevice.Log.Commit | kernel/log.c:194-203 | issues exactly the writes whose prefixes the crash theorem covers |
| LogDevice.Log.ReadHead | kernel/log.c:87-97 | the in-memory header becomes the one on disk |
| LogDevice.Log.RecoverFromLog | kernel/log.c:117-123 | issues exactly the writes of a recovery |
| LogDevice.Log.BeginOp | kernel/log.c:127-142 | admits or puts to sleep as the reservation machine says |
| LogDevice.Log.LogWrite | kernel/log.c:215-235 | readers see the new contents of that block only; the space step or the panic of the machine; a transaction that could be committed still can |
| LogDevice.Log.Leave | kernel/log.c:151-165 | the first section of end_op: the last operation out is to commit |
| LogDevice.Log.EndOp | kernel/log.c:147-175 | the last operation out commits exactly what was logged and reopens the log; any other changes no block |
| LogDevice.Log.Operation | kernel/log.c:126-235 | begin_op, any log_writes and end_op leave the disk the same writes would leave without a log, by one commit of the blocks in log_write order |
| DiskLayout.WordOfSet | kernel/fs.c:399-416 | storing a word of an indirect block changes that word only |
| DiskLayout.BitAfter | kernel/fs.c:66-105 | setting or clearing a block's bit changes no other block's bit |
| DiskLayout.AllocKeeps | kernel/fs.c:66-88 | a free block can be marked and zeroed without changing any file or address |
| DiskLayout.AttachInInode | kernel/fs.c:388-396 | entering a fresh block in an inode keeps all addresses distinct and marked and shows in no file |
| DiskLayout.AttachInIndirect | kernel/fs.c:399-416 | the same for the indirect block |
| DiskLayout.DataWriteKeeps | kernel/fs.c:516-528 | writing a data block changes one file, within that block, and no address |
| FileSystem.Fs.Balloc | kernel/fs.c:66-88 | the lowest free block, zeroed and marked, or 0 exactly when none is free |
| FileSystem.Fs.Bfree | kernel/fs.c:92-105 | clears one bit, and panics exactly when it is clear already |
| FileSystem.Fs.Bmap | kernel/fs.c:383-421 | the block's address, allocated on demand; no file's bytes change; at most two new bitmap blocks are logged; a panic exactly past MAXFILE |
| FileSystem.Fs.Writei | kernel/fs.c:506-539 | returning n makes the file old[..off] + src[..n] + old[off+n..]; no other file changes; short only on a full disk; files stay hole-free; a chunk logs at most MAXOPBLOCKS blocks |
| FileSystem.Fs.Readi | kernel/fs.c:472-496 | exactly the matching slice of the file, and no file changes |
| FileSystem.Fs.Itrunc | kernel/fs.c:426-453 | clears exactly that inode's bits, never meets a free block, changes no other file, and logs the inode and nothing but bitmap blocks besides |
| FileSystem.Fs.Truncation | kernel/fs.c:426-453 | as a transaction of its own it logs every block and inode it changes, at most the bitmap and one block |
| FileSystem.Fs.FileWrite | kernel/file.c:149-175 | the chunk loop writes a prefix of the source, all of it unless the disk is full or the range is bad, and moves the offset past it |
| FileSystem.Fs.Transaction | kernel/file.c:155-167 | one chunk logs every bitmap, data, indirect and inode block it changes, and at most MAXOPBLOCKS distinct blocks at any offset of a hole-free file |
| FileCrash.BytesOfWords | kernel/fs.h:32-51 | a block's bytes can be read back from its words |
| FileCrash.FileRead | kernel/fs.h:32-51 | a file read off a disk that holds the state has that state's contents |
| FileCrash.StoredRepresents | kernel/fs.h:14-51 | inodes, bitmap and data blocks can be stored side by side without disturbing each other |
| FileCrash.StoredUnlogged | kernel/fs.c:226-241 | a block the transaction did not log already holds what the new state needs |
| FileCrash.UpdatedRepresents | kernel/log.c:179-203 | installing the logged blocks turns a disk of the old state into a disk of the new one |
| FileCrash.FilesCrashAtomic | kernel/log.c:116-203 | in whatever order the changed blocks were logged, after a crash at any write of the commit and any interrupted recoveries all files are old or all are new |
| FileCrash.CommitFiles | kernel/log.c:126-235 | the logging code, given log_writes of the new state, issues exactly that commit and leaves the new state on the disk |
| FileCrash.WriteChunk | kernel/file.c:155-167 | a chunk of a file write has that property for every order of its logged blocks; it is short only on a full disk |
| FileCrash.TruncateFile | kernel/fs.c:426-453 | a truncation has that property too: after a crash at any write of its commit the disk holds the file system from before or from after |
| FileSystem.TallyBound | kernel/file.c:149-155 | four data, one indirect, one inode and four bitmap blocks are the most a chunk can touch |
| FileSystem.OverlayContent | kernel/fs.c:506-539 | overlaying bytes splices one file and changes no other |
| FileSystem.WrittenHoleFree | kernel/fs.c:506-539 | writing at or below the end of a hole-free file leaves no hole |
| FileSystem.TruncKeeps | kernel/fs.c:426-453 | after truncation all remaining addresses are still distinct and marked |
| LruList.Unlink | kernel/bio.c:128-129 | joining a buffer's neighbours gives the ring without it |
| LruList.PushFront | kernel/bio.c:130-133 | four pointer writes put a buffer in front of the ring |
| LruList.FrontPermutation | kernel/bio.c:126-134 | moving a buffer to the front keeps the list a permutation of all buffers |
| BufferCache.Recycle | kernel/bio.c:75-87 | an unreferenced buffer can be given to an uncached block without losing data |
| BufferCache.FillSees | kernel/bio.c:97-101 | a buffer being filled finds its block up to date on disk |
| BufferCache.DirtyIsHeldOrLogged | kernel/log.c:205-235 | a block that differs from the disk is held by someone or waiting in the log |
| BufferCache.QuietDiskIsStore | kernel/log.c:69-83 | with the log installed and no buffer held the disk is what an uncached disk would be |
| BufferCache.MovedToFront | kernel/bio.c:116-137 | the list stays ordered by the time of last use |
| BufferCache.Cache.constructor | kernel/bio.c:36-53 | binit builds a ring of all buffers, the last one first |
| BufferCache.Cache.Lookup | kernel/bio.c:65-73 | finds the block's buffer if there is one |
| BufferCache.Cache.LeastRecent | kernel/bio.c:75-87 | finds the unused buffer that was used longest ago, or none if all are in use |
| BufferCache.Cache.Bget | kernel/bio.c:58-89 | the cached buffer, or the least recently used free one reassigned, or a panic exactly when neither exists |
| BufferCache.Cache.Bread | kernel/bio.c:92-103 | the contents returned are those an uncached store would return |
| BufferCache.Cache.Fill | kernel/bio.c:97-102 | after filling, data equals the uncached store, in any interleaving |
| BufferCache.Cache.Store | kernel/log.c:209-213 | the holder's change is the uncached store's change of that block and of no other |
| BufferCache.Cache.Bwrite | kernel/bio.c:106-112 | panics without the lock, else the disk block becomes current |
| BufferCache.Cache.ReleaseSleep | kernel/bio.c:117-122 | a buffer given back unwritten is one that the log has pinned |
| BufferCache.Cache.Drop | kernel/bio.c:124-137 | the last user out moves the buffer to the front, others leave the list alone |
| BufferCache.Cache.MoveToFront | kernel/bio.c:126-134 | the six pointer writes take the buffer out and put it first |
| BufferCache.Cache.LogWrite | kernel/log.c:225-233 | a block new to the log is pinned once, an absorbed one is not pinned again |
| BufferCache.Cache.ReadBlock | kernel/log.c:179-191 | from a quiet cache a reader gets the pinned block or the disk's, as the log assumes, exactly when there is room for it |
| BufferCache.Cache.WriteBlock | kernel/log.c:179-191 | changing and writing an unlogged block changes the disk there and nothing else, exactly when there is room for it |
| BufferCache.Cache.LogBlock | kernel/log.c:205-235 | changing and logging a block pins its new contents and leaves the disk alone, exactly when there is room for it |
| BufferCache.Cache.InstallBlock | kernel/log.c:69-83 | writing and unpinning a logged block puts it on the disk and ends its pin, and never lacks a buffer |
| BufferCache.RoomIff | kernel/bio.c:58-89 | with no buffer in use one can be had for a block if and only if fewer blocks than buffers wait in the log, or this one does |
| BufferCache.Cache.Bunpin | kernel/bio.c:146-151 | an installed block loses its pin and cannot underflow the count |
| KrHeap.Merge | user/umalloc.c:33-42 | joining two touching blocks keeps every unit in exactly one block |
| KrHeap.Split | user/umalloc.c:79-82 | cutting a block's tail off keeps every unit in exactly one block |
| KrHeap.InsertRing | user/umalloc.c:36-42 | linking a block between its neighbours keeps the ring circular and address-ordered |
| KrHeap.JoinRing | user/umalloc.c:33-42 | absorbing the next block keeps the ring circular and address-ordered |
| KrHeap.UnlinkRing | user/umalloc.c:76-77 | taking out an exact fit keeps the ring ordered and coalesced |
| KrHeap.CarveRing | user/umalloc.c:78-82 | handing out a tail keeps the ring ordered and coalesced |
| KrHeap.Slot | user/umalloc.c:30-32 | the place of an address: the last free block below it |
| KrHeap.FreedIsInsertAndJoin | user/umalloc.c:33-42 | free's four cases equal inserting and then joining on each side that touches |
| KrHeap.Release | user/umalloc.c:24-44 | after free the list is circular, ordered, fully coalesced and disjoint from live blocks, and no live unit has been written |
| Malloc.UnitsLeast | user/umalloc.c:69 | the unit count is the least whose payload holds the request |
| Malloc.SbrkArgumentExact | user/umalloc.c:54 | the byte count survives the conversion to int if and only if the request is below 2^31 - 31 bytes |
| Malloc.RequestCoveredIff | user/umalloc.c:51-58 | the header morecore writes covers exactly the memory sbrk gave it if and only if the request is below 2^31 - 31 bytes |
| Malloc.LargestRequestExample | user/umalloc.c:51-58 | the largest request makes sbrk give 16 bytes for 2^28 + 1 units |
| Malloc.Heap.Sbrk | user/umalloc.c:54-58 | the converted byte count is the memory that is added, zeroed, as one live block |
| Malloc.TotalCountsUnits | user/umalloc.c:24-90 | summed block sizes count the units those blocks own |
| Malloc.Conservation | user/umalloc.c:24-90 | live plus free units are the units got from sbrk |
| Malloc.FreedFits | user/umalloc.c:57-60 | memory from sbrk ends up inside one free block large enough for the request |
| Malloc.PayloadFree | user/umalloc.c:9-19 | the list does not depend on what programs write into their blocks |
| Malloc.Heap.FindSlot | user/umalloc.c:30-32 | free's walk ends, from any start, at the free block just below the address |
| Malloc.Heap.Free | user/umalloc.c:24-44 | one block fewer is live; all other live blocks keep their units and contents; freep becomes the last free header below the block |
| Malloc.Heap.Search | user/umalloc.c:74-89 | the walk ends at the first fitting block after freep, or has seen that none fits |
| Malloc.Heap.Morecore | user/umalloc.c:46-61 | the heap grows by exactly max(nu, 4096) units, all free and in one block, or not at all |
| Malloc.Heap.Locate | user/umalloc.c:74-89 | at most one sbrk per call, and none when a block fits |
| Malloc.Heap.Take | user/umalloc.c:75-85 | the block handed out has exactly the units asked for, all free before |
| Malloc.Heap.Malloc | user/umalloc.c:63-90 | null exactly when nothing fits and sbrk fails; else a new live block disjoint from all others, with no live unit written |
| Malloc.Heap.UserWrite | user/umalloc.c:9-19 | writing to a live payload keeps the heap valid |
| PageTable.Resolve | kernel/vm.c:89-107 | a walk reaches the one table whose place in the tree spells the address |
| PageTable.LeafReached | kernel/vm.c:89-107 | each level-0 table is reached from its root by exactly the addresses it stands for |
| PageTable.SetLeafMapped | kernel/vm.c:160-162 | writing a leaf entry changes one page of one address space and no other anywhere |
| PageTable.WithTableTree | kernel/vm.c:99-104 | hanging in a new empty table keeps all trees well-formed and disjoint |
| PageTable.WithTableLookup | kernel/vm.c:99-104 | a new table changes no mapping |
| PageTable.LookupFrame | kernel/vm.c:89-107 | a walk depends only on the tables of its own tree |
| PageTable.ChildEntry | kernel/vm.c:279-289 | a valid entry freewalk meets is a table, so its panic is not reached |
| PageTable.WalkDone | kernel/vm.c:275-291 | after all entries only the page itself is left of its tree |
| AddressSpace.WriteEntry | kernel/vm.c:157-167 | the entry a walk finds is the page's mapping, and writing it changes that mapping only |
| AddressSpace.ProgressUndone | kernel/vm.c:334-336 | unmapping what a loop has loaded restores every mapping and every holder |
| AddressSpace.SpaceGone | kernel/vm.c:295-301 | after freewalk no table of the address space is left and no other mapping has changed |
| VirtualMemory.Kernel.constructor | kernel/kalloc.c:26-40 | at boot every whole page is free |
| VirtualMemory.Kernel.Kalloc | kernel/kalloc.c:68-82 | the first free page, or 0 exactly when there is none |
| VirtualMemory.Kernel.Kfree | kernel/kalloc.c:46-63 | the page is free again and counted once; a panic exactly outside the allocator's memory |
| VirtualMemory.Kernel.Walk | kernel/vm.c:89-107 | the level-0 table for an address, found if and only if the address is below MAXVA and the tables missing are none or, with alloc, no more than the free pages; no mapping changes, and nothing changes without alloc |
| VirtualMemory.Kernel.MapOne | kernel/vm.c:157-167 | one page is mapped; a panic exactly if it was; out of memory exactly beyond MAXVA or with fewer free pages than missing tables |
| VirtualMemory.Kernel.Mappages | kernel/vm.c:146-169 | the pages of the range are mapped to consecutive pages up to the first that finds no table or is mapped already, which is a panic, as is an empty range; it lacks memory only if the range lacks more tables than there are free pages |
| VirtualMemory.Kernel.PlaceOne | kernel/vm.c:236-251 | a fresh page with given contents is mapped, exactly if the free list holds it and the tables missing; otherwise it is given back |
| VirtualMemory.Kernel.Uvmunmap | kernel/vm.c:174-196 | exactly these pages leave the address space and are free; none of the panics is reached |
| VirtualMemory.Kernel.Uvmcreate | kernel/vm.c:200-209 | a new root with nothing mapped, others unchanged |
| VirtualMemory.Kernel.Uvmalloc | kernel/vm.c:229-253 | all new pages, zeroed and held, exactly if the new size is below MAXVA and the free list holds the pages and the tables missing, which it then loses; otherwise every mapping as before and every data page given back |
| VirtualMemory.Kernel.Uvmdealloc | kernel/vm.c:259-271 | exactly the pages between the rounded sizes are given up |
| VirtualMemory.Kernel.Freewalk | kernel/vm.c:275-291 | every table page at and under the given one is free, no other is touched |
| VirtualMemory.Kernel.Uvmfree | kernel/vm.c:295-301 | nothing of the address space is left; all other address spaces keep their mappings and contents |
| VirtualMemory.Kernel.Uvmcopy | kernel/vm.c:309-337 | the child's pages are copies of the parent's with the same flags, exactly if the free list holds them and the tables missing; otherwise nothing is mapped and no page is kept |
| VirtualMemory.Kernel.CreateGrowFree | kernel/vm.c:198-301 | creating, growing and freeing returns the set of free pages to what it was, even if growing failed; it succeeds exactly with n + ceil(n/512) + ceil(n/512^2) + 1 free pages |
| PageCount.EntryIffSpot | kernel/vm.c:95-105 | an entry on the way to a page is in use if and only if the next table is there |
| PageCount.SpentNext | kernel/vm.c:236-251 | what a range of pages costs is what its pages cost one after the other, no table counted twice |
| PageCount.NeedBound | kernel/vm.c:236-251 | three free pages for each page are always enough |
| PageCount.NeedFromZero | kernel/vm.c:236-251 | what a new address space of n pages needs |
| SleepWakeup.DoKeeps | kernel/proc.c:444-608 | every atomic step of every process, on any channel, keeps lock ownership and the promise that no wakeup is lost |
| SleepWakeup.RunKeeps | kernel/proc.c:444-608 | so does every interleaving of such steps |
| SleepWakeup.StepIsLocal | kernel/proc.c:535-584 | a step leaves other processes' places and locks alone; a condition changes only under its channel's lock |
| SleepWakeup.WakeupMissesNobody | kernel/proc.c:564-584 | when a wakeup made under the channel's lock has been past every process, nobody is asleep there or about to be |
| SleepWakeup.SleeperIsWoken | kernel/proc.c:535-584 | whoever is committed to sleep when such a wakeup begins is runnable when it has been past every process |
| SleepWakeup.NobodySleepsOnTrueCondition | kernel/proc.c:535-562 | a condition that holds for a process, with no wakeup owed, finds it neither asleep nor about to be |
| SleepWakeup.WakeupKeepsLock | kernel/proc.c:567-584 | the lock wakeup was called under is held until it ends |
| SleepProgress.WakeupEnds | kernel/proc.c:567-584 | a wakeup with nobody in its way ends, and has made runnable exactly those who sleep on its channel; made under the channel's lock it owes nothing any more |
| SleepProgress.SleepEnds | kernel/proc.c:535-553 | sleep gives the lock back, puts the process to sleep on its channel, and changes nothing else |
| SleepProgress.SleeperReturns | kernel/proc.c:553-562 | a sleeper made runnable, once scheduled, returns with the lock held |
| SleepProgress.KillWakes | kernel/proc.c:589-608 | kill makes a sleeping process runnable, whatever it sleeps on |
| SleepProgress.YieldReturns | kernel/proc.c:444-510 | a process that yields is runnable, and goes on where it was when scheduled |
| SleepProgress.ForkRuns | kernel/proc.c:277-328 | a process created by fork goes from unused over USED to RUNNABLE, and the scheduler runs it |
| SleepProgress.ExitReaped | kernel/proc.c:343-431 | exit leaves a zombie without spinlocks, and wait makes it unused again |
| SleepLock.RunKeeps | kernel/sleeplock.c:21-41 | every interleaving of any number of sleeplocks keeps their ownership and owes no wakeup once a release is over |
| SleepLock.Projects | kernel/sleeplock.c:21-41 | a run of sleeplocks is a run of the sleep and wakeup machine |
| SleepLock.MutualExclusion | kernel/sleeplock.c:21-41 | at most one process holds a sleeplock, and it is the recorded owner |
| SleepLock.LockedIffHeld | kernel/sleeplock.c:21-41 | in every interleaving a sleeplock is marked as taken if and only if some process holds it |
| SleepLock.ReleaseWakesEverybody | kernel/sleeplock.c:34-41 | when a release's wakeup has been past every process, nobody is asleep on the lock or about to be; ReleaseEnds says that it frees the lock |
| SleepLock.NobodySleepsOnFreeLock | kernel/sleeplock.c:21-41 | no process stays SLEEPING on a lock that is free while its spinlock is free; LockedIffHeld says when it is free |
| SleepLock.WokenTestsAgain | kernel/sleeplock.c:25-27 | a process woken by anything, kill included, tests the lock before it holds it |
| SleepLock.AcquireFree | kernel/sleeplock.c:21-31 | a sleeplock nobody holds is acquired by the caller's own steps once its spinlock is free |
| SleepLock.AcquireTaken | kernel/sleeplock.c:21-31 | acquiring a taken one ends up asleep on it, with the spinlock given back |
| SleepLock.ReleaseEnds | kernel/sleeplock.c:33-41 | a release frees the sleeplock by the caller's own steps and makes everybody runnable who sleeps on it |
| SleepLock.HandOver | kernel/sleeplock.c:21-41 | from a holder to a sleeper: the steps of the two alone let the sleeper have the lock |
| LogWait.RunKeeps | kernel/log.c:126-235 | every interleaving of begin_op, log_write and end_op keeps the reservation and owes no wakeup outside the log's lock |
| LogWait.Projects | kernel/log.c:126-175 | a run of the log's calls is a run of the sleep and wakeup machine |
| LogWait.NobodyWaitsWithRoom | kernel/log.c:126-175 | no operation stays asleep in begin_op while the log would admit it and its lock is free |
| LogWait.CommitHasOneCommitter | kernel/log.c:147-175 | in every interleaving the log is marked as committing if and only if one process is committing, and never two are |
| LogWait.BeginAdmitted | kernel/log.c:126-142 | with room begin_op admits its operation by its own steps |
| LogWait.BeginWaits | kernel/log.c:126-142 | without room it ends up asleep on the log, with the spinlock given back |
| LogWait.WriteNoted | kernel/log.c:213-235 | log_write notes the block, once, by its own steps |
| LogWait.EndEnds | kernel/log.c:147-175 | end_op ends its operation by its own steps and makes everybody runnable who waits in begin_op; after the last operation the log is empty and open |
| LogWait.WaiterAdmitted | kernel/log.c:126-175 | from the last operation to a waiting one: the steps of the two alone let the waiter's operation begin |
| Grep.HereOne | user/grep.c:84-95 | what a single character followed by a pattern matches |
| Grep.HereStar | user/grep.c:98-105 | what a starred character followed by a pattern matches, for every split of the text |
| Grep.MatchHere | user/grep.c:84-95 | true exactly when the text starts with one piece per part of the pattern |
| Grep.MatchStar | user/grep.c:98-105 | true exactly when some number of repetitions works |
| Grep.Match | user/grep.c:72-81 | terminates, and true exactly when the declarative meaning of the pattern has a match, for all strings |

## Left out

- RaidDevice.Device.ReadRaid: negative block numbers are only modelled for RAID 1, the one level that tests for them; the same holds for WriteRaid and for the reads and writes of RAID 0, 0+1, 4 and 5.
- RaidDevice.Device.WriteRaid4: scratch pages are taken to be available; the leak and the missing checks on some paths are not modelled.
- RaidDevice.Device.DiskRepairedRaid01: the disk number is required to be in range, because the code does not check it; so is it in DiskRepairedRaid.
- RaidRuns.RepairTold: of a RAID 4 data disk it says when a repair cannot succeed; RepairAfterRestart says when a cold cache refuses one.
- RaidRuns.RunFromInit: RAID 5 is started on two disks or more; on one disk init_raid succeeds too, but there is no data disk to map a block to.
- LogDevice.Log.BeginOp: is one pass of the wait loop; the waiting, and the wakeups of EndOp, are in LogWait.
- LogDevice.Log.LogWrite: the block must lie outside the log area, because the code does not check it.
- FileSystem.Fs.Writei: copying from user memory is taken to succeed; a failure halfway leaves a changed buffer outside the log.
- FileSystem.Fs.Readi: copying to user memory is taken to succeed.
- FileCrash.TruncateFile: the bitmap and one more block must fit the log, because a truncation may touch every bitmap block; it is committed alone.
- FileCrash.WriteChunk: the chunk is committed alone; other operations in the same transaction are not modelled, and the file must have no holes, so that it stays within its reservation.
- BufferCache.Cache.Store: buffers are changed only for the file-system device, because every transfer goes to the same disk whatever the device number.
- BufferCache.Cache.Bread: is the uncontended case; with contention the same steps run one by one as Bget, AcquireSleep and Fill.
- BufferCache.Cache.LogWrite: the order of the log's list is not kept here; it is in LogDevice.
- Malloc.Heap.Malloc: a request of 2^31 - 31 bytes or more must fit a free block or find sbrk failing, the exact range in which sbrk is asked for the right amount; addresses are in header units, and programs that shrink their memory with sbrk are not modelled.
- VirtualMemory.Kernel.Mappages: the permissions must be those of a leaf, because the code misreads the entry otherwise.
- VirtualMemory.Kernel.Uvmcopy: the parent's pages must be mapped and the child's not, because the code panics otherwise.
- VirtualMemory.Kernel.Kfree: a page of the allocator's memory must be one the caller has; a page is viewed either as a table or as bytes.
- SleepLock.HandOver, LogWait.WaiterAdmitted and the other progress results are about processes nobody gets in the way of; fairness of the scheduler and of the spinlocks is not modelled.
- SleepWakeup, SleepLock and LogWait are state machines on values; update in place and memory ordering are not captured, acquire and release are atomic.
- wait and exit: their condition is one more instance of SleepWakeup and is not spelled out.
- LogSpace and RedoLog are state machines on values; LogDevice has the same operations as code that updates fields.
- destroy_raid and detection after a destroy or a failed init: `working` is an unsigned byte compared with -1, and the levels clear different disks.
- virtio queues and interrupts: a block transfer is one atomic, synchronous step.
- The type, device and link fields of inodes, directories, path lookup, inode and file tables, pipes and system calls.
- exec, fork apart from uvmcopy, traps, the console, string helpers, the shell, and the read loop of grep.
