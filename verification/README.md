# A model of esp_jrnl: a redo journal under a file system

esp_jrnl keeps a journaling store at the end of a flash partition. While a
transaction is open every disk write of the file system is appended to the store
as a header sector plus data sectors. Committing sets the status of the master
record (the last sector) to COMMIT, copies the logged data to its targets in order
and resets the record. A later mount finishes a committed transaction and drops
an open one.

This project models that protocol in Dafny and proves it. The centre is one
theorem about whole lifetimes of a volume, `Lifetimes.Live`: start from any
recoverable image, let any sequence of boots and file-system calls happen, let the
power fail and raw operations fail at any sector of any erase, write or read, also
inside the mounts that recover from earlier losses. What survives is the initial
file system with a sequence of *whole* transactions applied in order: every call
that reported success, with every write it acknowledged; no cancelled one; and each
interrupted one entirely or not at all. Every read sees the file system left by the
earlier transactions. A READY instance has exactly what survives in its file-system
region. And an event in which nothing fails, after one that succeeded, takes exactly
its own effect, whatever went wrong before.

The theorem is a refinement. `Lifetimes.LifeRun` lists, event by event, everything a
boot or a call may answer and leave behind, with what failed below it; `Live` proves
that every run of the code is one of those, and `Lifetimes.RunMeans` derives the
statements above for all of them. `Api.Exercise` does the same for arbitrary calls of
the API against a small reference machine (`Reply`, `Next`, `Broken`), and
`Handles.Run` for the handle tables.

## How it is built

| file | contents |
|---|---|
| `Layout.dfy` | 32-bit words, bytes, the two on-disk records, the geometry of a volume, address arithmetic |
| `Log.dfy` | what a list of operations does to a region (`ApplyOps`); which list a run of store sectors encodes (`Scan`); what replay makes of any image (`Redone`) |
| `Durability.dfy` | what an image is worth after a power loss (`Durable`, `Recoverable`, `Settled`) and how each kind of disk update moves it |
| `Redo.dfy` | the replay loop, seen from the image it started on |
| `Host.dfy` | the raw disk and the heap: class `Host` |
| `Journal.dfy` | `srcs/esp_jrnl.c`: class `Journal` |
| `Mount.dfy` | `esp_jrnl_mount` |
| `Client.dfy` | the wrappers of `srcs/fatfs/vfs/vfs_jrnl_fat.c` |
| `Lifetime.dfy` | boots, calls and power losses in any order |
| `Api.dfy` | arbitrary API sequences, direct mode, cancelling a commit |
| `Handles.dfy` | the handle tables and the spiflash mount and unmount sequences |
| `ZeroFill.dfy` | `f_write_zero_mem` and the file-extension check |

Sectors are byte strings. The journal looks at them through total views
(`HeaderOf`, `MasterOf`), so every function is defined on every image, corrupted
ones included. `esp_crc32_le` is an arbitrary function, a field of `Volume`; only
its being a function is used.

**Power loss.** `Host` performs raw operations sector by sector. At every sector
the operation completes, fails, or loses power. A sector that was not completed
holds arbitrary bytes; a sector programmed without having been erased holds
arbitrary bytes as well. Once the power is gone every raw operation fails and
changes nothing, so whatever the code still does after the cut leaves the image
as the cut left it. A contract that holds for all outcomes is therefore a
statement about every point at which the power may be cut. Two counters tell what
went wrong below: `diskFailures` for raw operations, `refusals` for allocations;
`Failures()` is their sum, so "nothing fails" in a contract is
`Failures() == old(Failures())` and "no raw operation fails" is
`diskFailures == old(diskFailures)`. Every call stops at the first thing that fails
below it and reports it (`FailFast`).

**The one assumption about the disk.** An incomplete update of the last sector
never leaves a record mount would accept, unless it is the old record or the one
being written. `Layout.TornMasterWrite` and `Layout.TornMasterErase` derive this
for updates cut after any number of bytes.

**What callers must provide**, as in the source: write ranges of at least one
sector inside the file-system region (`esp_jrnl_write` checks no target bound),
a sector size that divides the volume size and holds a master record, a store no
larger than the volume, and handles of at least -1.

## What the code does that its documentation does not say

- A power loss while the volume is in direct mode (formatting) leaves the status
  FS_INIT on disk. No default mount ever succeeds on that image: `jrnl_replay` asserts
  (`Api.LoseDirectMode`). The model reports the assertion as the error `Aborted`.
- A torn master write can leave a record with the marker but another geometry: for a
  READY or OPEN record exactly when the write is cut after at least 4 and fewer than 28
  bytes (`Mounting.TornRecordMountable`). Every later default mount refuses it and
  touches nothing (`Mounting.Retry`). A torn erase never does (`Mounting.TornEraseMountable`).
- `esp_jrnl_write` checks no target and `jrnl_replay` checks no range. A record whose
  target lies in the store is copied there; `Api.StrayNotRestartable` gives one, for
  every volume and checksum, whose replay succeeds but cannot be started over. Without
  such records replay always can (`Redo.RedoneRestarts`).
- `esp_jrnl_stop(false)` has no status check. After a commit that failed half-way it
  resets the record and loses the transaction. `Api.CancelSafeExactly` gives the exact
  condition under which it is safe, over all images whose sectors have the sector size.
  `Api.CancelLosesCommit` runs a cancel on a concrete one, for every volume with room for a
  transaction and every checksum function: it succeeds unless something fails, and the
  committed write is lost.
- When the record update of `esp_jrnl_start` fails, the status in memory is OPEN all the
  same and the wrapper returns without a stop; every later call is refused until the next
  mount (`Client.NotStarted` in `Client.Transact`). A call that was started is always stopped.
- `esp_jrnl_write` may report an error although the operation is in the log: when
  only the master update failed. A later commit then includes it.
- The last file-system sector cannot be read, and a store of three sectors, the
  documented minimum, holds no operation; both follow from the contracts of `Read` and `Room`.
- The bound check of `esp_jrnl_read` adds without overflow check. An accepted read
  still never leaves the file-system region, for all 32-bit arguments (`Layout.WrappedRange`).
- A comment in the source expects the bytes after the master record in its sector to
  be zero. `jrnl_update_master` writes a whole sector starting at a shorter structure, so
  the model lets those bytes be anything.
- In READY every write is refused (`Journal.Write`), so formatting after a failed FAT mount
  needs one of the flags that mount the journal in direct mode.

## Model

| member | source | states |
|---|---|---|
| Layout.HeaderRoundTrip | srcs/esp_jrnl.c:746-755 | the header sector holds target, count and data checksum in this order, reads back as them, passes the header check of replay and is zero behind it |
| Layout.EncodeMaster | srcs/esp_jrnl.c:144-148 | the sector written for a master record reads back as that record whatever bytes follow the structure |
| Layout.MasterRoundTrip | private_include/esp_jrnl_internal.h:53-60 | decoding the seven encoded words of a record gives the record |
| Layout.RecordFormat | private_include/esp_jrnl_internal.h:53-60 | the record on disk byte by byte: field order, little-endian words, marker and status values |
| Layout.FlattenBuffer | srcs/esp_jrnl.c:270 | the data checksum covers all count times sector-size bytes of the data, in order |
| Layout.TornMasterWrite | srcs/esp_jrnl.c:464-474 | a record write cut after any number of bytes is refused by mount's checks or reads as the complete record |
| Layout.TornMasterErase | srcs/esp_jrnl.c:464-474 | a record erase cut after any number of bytes leaves the old record or one mount does not accept |
| Layout.TornMaster | srcs/esp_jrnl.c:144-148 | a record write cut after n bytes shows the marker exactly from 4 bytes on, the volume's sector size not before 28, and from then on the record |
| Layout.TornEraseUnmarked | srcs/esp_jrnl.c:463-464 | a record erase that touched one byte leaves no marker |
| Layout.SectorAddress | srcs/esp_jrnl.c:93-104 | for every sector range inside the volume neither the sector number nor the byte address nor the length wraps, and the byte range is exactly those sectors |
| Layout.PastTheEnd | srcs/esp_jrnl.c:115-127 | a range that leaves the volume, its length not wrapped, is no byte range of the disk |
| Layout.RecordAddress | srcs/esp_jrnl.c:757-778 | the three byte ranges of a log append are the record's sectors, its header and its data, without wrap |
| Layout.MasterAddress | srcs/esp_jrnl.c:457 | the address mount reads the record from is the last sector and equals the one updates write |
| Layout.StoreOffset | srcs/esp_jrnl.c:496 | the division of volume size by sector size recovers the sector count |
| Layout.WrappedRange | srcs/esp_jrnl.c:829-833 | for all 32-bit sector and count, a byte range the disk accepts ends at their wrapped sum |
| Log.ReplayRestarts | srcs/esp_jrnl.c:241-296 | replaying a list gives the same region from any two images that agree off its targets, overlaps included |
| Log.ReplayIdempotent | srcs/esp_jrnl.c:241-296 | replaying twice equals replaying once |
| Log.ApplyTouchesOnlyTargets | srcs/esp_jrnl.c:277-288 | replay changes no sector that is not a target |
| Log.ApplyAppend | srcs/esp_jrnl.c:241-296 | replaying a concatenation is replaying its parts in order |
| Log.RecordOf | srcs/esp_jrnl.c:243-275 | a record counts as intact only when its ranges lie inside the file system and the log |
| Log.RefusedExactly | srcs/esp_jrnl.c:243-275 | whatever its ranges, a record is refused exactly when it cannot be read or fails the header or the data checksum |
| Log.DataChecked | srcs/esp_jrnl.c:263-275 | a readable record with a good header is refused, with INVALID_CRC, exactly when the checksum of all bytes of its data differs from the header's |
| Log.ScanStop | srcs/esp_jrnl.c:241-296 | a walk that stops short stops right behind the operations it decoded, and refuses that record exactly when it is unreadable or fails a checksum |
| Log.Scan | srcs/esp_jrnl.c:241-296 | the decoded operations are all in range, and a clean log fills its sectors exactly: headers plus data |
| Log.ScanFrame | srcs/esp_jrnl.c:241-296 | a clean log is decoded from its own sectors alone |
| Log.RedoneScan | srcs/esp_jrnl.c:241-296 | on every image the failure-free walk first applies the operations the scan decodes; then a clean log is done, a corrupt one stops with its error, a stray record is copied to where it lands |
| Log.RecordWritten | srcs/esp_jrnl.c:752-778 | a header sector followed by its data is an intact record of the operation |
| Log.ScanAppend | srcs/esp_jrnl.c:746-786 | log round trip: after an append the walk decodes the old list followed by the new operation |
| Durability.MasterStepPending | srcs/esp_jrnl.c:144-148 | a record update, complete or cut, leaves a recoverable image whose pending operations are the old ones, none, or - for a commit mark - the whole log |
| Durability.MasterStepSettled | srcs/esp_jrnl.c:152-164 | an update that is not a commit mark never changes what survives on a settled volume |
| Durability.LogWriteSettled | srcs/esp_jrnl.c:763-782 | while nothing is committed, any damage to the log leaves what survives unchanged |
| Durability.AppendSettled | srcs/esp_jrnl.c:763-789 | a log append cut anywhere keeps the surviving file system |
| Durability.AppendScan | srcs/esp_jrnl.c:763-789 | a complete append makes the log the old operations and the new one, whatever the record update did |
| Durability.ReplayKeepsDurable | srcs/esp_jrnl.c:277-300 | once committed, arbitrary damage to targets of logged operations changes nothing about what survives |
| Durability.WindowExact | srcs/esp_jrnl.c:829-833 | a range below the store whose sum does not wrap is readable, and read as asked |
| Redo.ProgressRecord | srcs/esp_jrnl.c:241-275 | the record met in the loop is the one the log held at the start; a bad checksum means exactly the operations done so far came before it |
| Redo.ProgressStep | srcs/esp_jrnl.c:277-296 | one iteration extends the applied prefix by exactly that operation |
| Redo.ProgressTorn | srcs/esp_jrnl.c:277-288 | an interrupted copy damages only targets of logged operations |
| Redo.ProgressEnd | srcs/esp_jrnl.c:241-300 | the walk ends exactly at the end of a clean log with every operation applied |
| Redo.RedoneRestarts | srcs/esp_jrnl.c:241-300 | for every log without a stray record, corrupt ones included, a replay that starts over from any damage to targets ends with the same disk and the same error |
| HostDevice.Host.EraseRange | srcs/esp_jrnl.c:81-85 | raw erase: whole range blank on success; on failure or power loss only the range may differ, arbitrarily |
| HostDevice.Host.WriteRange | srcs/esp_jrnl.c:75-79 | raw write: erased sectors take the data on success; on failure or power loss only the range may differ |
| HostDevice.Host.ReadRange | srcs/esp_jrnl.c:69-73 | raw read returns the sectors of the range or an error and changes no sector |
| HostDevice.Host.ReadHead | srcs/esp_jrnl.c:457 | the short read of mount returns the first bytes of the sector |
| HostDevice.Host.Calloc | srcs/esp_jrnl.c:257 | allocation refuses an overflowing product and may refuse any other |
| JournalInstance.Journal.RawUpdate | srcs/esp_jrnl.c:277-288 | for all 32-bit arguments: an unaligned range is refused untouched; else the range at the wrapped address is replaced, or damaged, and nothing else is |
| JournalInstance.Journal.WriteInternal | srcs/esp_jrnl.c:87-110 | a start past the store is refused untouched; store sectors are replaced, or damaged, and nothing else is |
| JournalInstance.Journal.ReadInternal | srcs/esp_jrnl.c:115-132 | returns the requested store sectors; a start past the store is INVALID_ARG, a range past its end INVALID_SIZE |
| JournalInstance.Journal.UpdateMaster | srcs/esp_jrnl.c:144-148 | only the last sector changes; it reads as the record in memory, as before, or as no record |
| JournalInstance.Journal.ResetMaster | srcs/esp_jrnl.c:152-164 | the record in memory becomes READY or direct with an empty log, and the disk follows |
| JournalInstance.Journal.ReadRecord | srcs/esp_jrnl.c:243-275 | without failures it succeeds exactly on records that pass both checksums and returns their target and data, and refuses any other with its error |
| JournalInstance.Journal.ReplayRecord | srcs/esp_jrnl.c:241-296 | one iteration on any record: a refused one changes nothing and gives its error; any other is copied to where its target lands, wrapped address included, and the index advances past it |
| JournalInstance.Journal.ReplayLog | srcs/esp_jrnl.c:230-296 | the loop terminates; without failures it is the walk of `Log.Redone` on every image; on logs without stray records it copies exactly the intact records before the first refused one and, whatever fails, writes only their targets |
| JournalInstance.Journal.Replay | srcs/esp_jrnl.c:185-316 | commit: without failures the walk on every image, its verdict, and the record closed only on success; without stray records also at every cut: redo all or stop at a prefix with record and log untouched, what survives never changes, memory and disk agree unless a raw operation fails; other statuses: drop, keep or refuse |
| JournalInstance.Journal.Start | srcs/esp_jrnl.c:543-579 | opens only from READY, with an empty log and the record on disk; refusals touch nothing; what survives is kept |
| JournalInstance.Journal.ProgramRecord | srcs/esp_jrnl.c:757-782 | header and data reach the first free store sectors, and only those change |
| JournalInstance.Journal.AppendRecord | srcs/esp_jrnl.c:744-782 | an intact record of the operation stands at the end of the log |
| JournalInstance.Journal.LogOperation | srcs/esp_jrnl.c:736-798 | the log becomes old operations plus the new one; only its sectors and the record change; a refused allocation changes nothing; nothing is lost at any cut |
| JournalInstance.Journal.Write | srcs/esp_jrnl.c:709-811 | direct: the target is overwritten; open: logged if and only if it fits, region unchanged; else refused untouched |
| JournalInstance.Journal.MarkCommit | srcs/esp_jrnl.c:606-621 | after the commit mark was written or cut, all operations are pending if it is on disk and none if it is not |
| JournalInstance.Journal.Commit | srcs/esp_jrnl.c:604-631 | what survives is all operations if the mark is on disk or the record READY, else none; a failed commit keeps log and record; READY only with all in place; memory and disk agree unless a raw operation fails |
| JournalInstance.Journal.Cancel | srcs/esp_jrnl.c:594-602 | the record is reset, the region kept, and the region is what survives |
| JournalInstance.Journal.SetDirectIo | srcs/esp_jrnl.c:684-707 | switches only between READY and direct; refused untouched during a transaction or commit |
| JournalInstance.Journal.Read | srcs/esp_jrnl.c:814-834 | for all 32-bit arguments: refused exactly when the wrapped sum reaches the store or the disk refuses the range; otherwise file-system sectors only, the requested ones unless the sum wraps |
| JournalInstance.Journal.SectorCount | srcs/esp_jrnl.c:650-665 | the reported sector count is the first store sector |
| Mounting.Resume | srcs/esp_jrnl.c:456-491 | rolls the record found forward or back; succeeds without failures exactly on mountable images |
| Mounting.CreateStore | srcs/esp_jrnl.c:493-504 | an empty store with a record for this volume, region unchanged |
| Mounting.Mount | srcs/esp_jrnl.c:402-523 | by the flags: overwriting, formatting or not replaying leaves everything but the record, the first two always succeed without failures and end in direct mode; otherwise exact success condition and exact redo for any log, READY and empty, what survives kept at every cut and delivered; other geometry and a volume left in direct mode refused untouched; a refused record stops at a prefix with its error |
| Mounting.RefusedVolume | srcs/esp_jrnl.c:464-491 | a recoverable volume that a default mount refuses has another geometry or was left in direct mode |
| Mounting.Remount | srcs/esp_jrnl.c:402-523 | a default mount is idempotent |
| Mounting.Retry | srcs/esp_jrnl.c:464-474 | a volume with the marker and another geometry is refused by any number of default mounts, untouched |
| Mounting.TornRecordMountable | srcs/esp_jrnl.c:463-487 | a record write cut after n bytes leaves a volume a default mount accepts if and only if n is below 4, or at least 28 and the complete record is accepted |
| Mounting.TornEraseMountable | srcs/esp_jrnl.c:463-491 | a record erase that touched one byte leaves a volume every mount accepts and that is worth its region |
| Client.Serve | srcs/esp_jrnl.c:709-834 | one access in a transaction answers, logs and fails as `Answer` says, in every case |
| Client.InRangePuts | srcs/esp_jrnl.c:709-811 | a call is in range exactly when its writes are operations of the file-system region |
| Client.Perform | srcs/fatfs/vfs/vfs_jrnl_fat.c:1248-1258 | for every list of accesses, whatever fails: each is answered with the failures it met and no others; isolation and conservation; without failures exactly the admitted writes succeed |
| Client.AnsweredMeans | srcs/esp_jrnl.c:709-834 | from the answers alone: acknowledged writes are logged, reads saw the region, and without failures exactly what fits was logged and nothing else refused |
| Client.Stop | srcs/esp_jrnl.c:581-631 | the stop closes the record with all writes on a positive verdict and none on a negative one, or a commit failed half-way keeps its log; it succeeds exactly when nothing fails in it |
| Client.Transact | srcs/fatfs/vfs/vfs_jrnl_fat.c:1228-1258 | all a wrapper call may do: refused unless READY; start failed; or served and then stopped in every case, whatever its accesses answered |
| Client.CalledMeans | srcs/fatfs/vfs/vfs_jrnl_fat.c:1228-1258 | so a call is atomic at every cut, committed only on a positive verdict, and without failures ends READY again |
| Client.AllAdmitted | srcs/esp_jrnl.c:739 | all writes of a call are logged if and only if headers plus data fit the store less two sectors |
| Client.AdmittedShorter | srcs/esp_jrnl.c:739 | admitted writes never reach the last two store sectors |
| Lifetimes.PowerUp | srcs/fatfs/vfs/vfs_jrnl_fat_spiflash.c:72-162 | a boot keeps what survives, succeeds exactly when nothing fails and the image is mountable, and refuses any other volume untouched |
| Lifetimes.Happen | srcs/fatfs/vfs/vfs_jrnl_fat.c:1234-1369 | a boot or a call in any state is a step of `EventStep` |
| Lifetimes.StepMeans | srcs/fatfs/vfs/vfs_jrnl_fat.c:1234-1369 | a step changes what survives by a whole transaction or not at all, reads see what survived before it, and one without failures on a healthy volume succeeds with exactly its effect |
| Lifetimes.RunMeans | test_apps/jrnl_adv/main/test_esp_jrnl_adv.c:14-27 | the same for whole runs: whole transactions in order, acknowledged writes durable, reads isolated, progress after every success |
| Lifetimes.RefusedForGood | srcs/esp_jrnl.c:464-491 | a boot refused without a failure shows on the final disk, which no later event changed |
| Lifetimes.BlankVolume | srcs/esp_jrnl.c:488-500 | an erased partition is recoverable, mounts, and is worth itself |
| Lifetimes.Live | test_apps/jrnl_adv/main/test_esp_jrnl_adv.c:14-27 | every run of the code is a `LifeRun` between its first and last state; hence atomicity, durability, isolation and progress over whole lifetimes; memory equal to disk while no raw operation fails; no boot refused without a reason on disk |
| Api.MountedConsistent | srcs/esp_jrnl.c:493-504 | every mounted instance is one the next two rows apply to |
| Api.Invoke | srcs/esp_jrnl.c:543-834 | every API call in every state is a step of the reference machine, with its answer, its data and what failed; invariant and clean log kept; memory equal to disk while no raw disk operation fails, whatever allocations are refused |
| Api.Exercise | srcs/esp_jrnl.c:543-834 | every sequence of calls is a run of that machine; after a failed commit no call but cancel changes a sector or a field |
| Api.QuietRun | srcs/esp_jrnl.c:543-834 | without failures every state and every answer is that of the machine alone |
| Api.FinishLater | srcs/esp_jrnl.c:606-629 | from a failed commit, any calls but cancel and a reboot change nothing about what survives; a mount that succeeds delivers it, and without failures it succeeds whenever the mark is on disk |
| Api.CommitOrFinish | srcs/esp_jrnl.c:604-629 | a commit succeeds unless something fails; finished by a reboot if it fails half-way, it is worth all operations or none; all if it reported success or no raw operation failed |
| Api.WriteAll | srcs/esp_jrnl.c:725-733 | in direct mode a list of writes has the effect of the list in order, and touches neither store nor record whatever fails |
| Api.RunDirect | srcs/esp_jrnl.c:684-733 | direct mode switched on, used and switched off again has the effect of the list in order |
| Api.LoseDirectMode | srcs/esp_jrnl.c:201 | from a volume in direct mode, whatever was written, no default mount after a power loss ever succeeds and none changes a sector |
| Api.RunJournaled | srcs/esp_jrnl.c:736-786 | start, writes and commit have the effect of the list in order, succeed without failures exactly when it fits, and at every cut are worth all of it or nothing |
| Api.SameAsDirect | srcs/esp_jrnl.c:725-786 | journaled and direct execution of the same writes both end with the region the list gives, both READY |
| Api.CancelSafeExactly | srcs/esp_jrnl.c:594-602 | for all images of whole sectors: resetting the record keeps what survives, wherever a replay stopped, if and only if the record on disk is not COMMIT or its log is empty |
| Api.TornTarget | srcs/esp_jrnl.c:277-288 | every non-empty commit has a point of its replay, the target erased or half written, at which the region is not what survives |
| Api.FirstCommitPending | srcs/esp_jrnl.c:606-621 | for every volume with room for a transaction and every checksum: an image of whole sectors whose one committed write has not reached its target |
| Api.CancelLosesCommit | srcs/esp_jrnl.c:594-602 | on that image a cancel without failures succeeds and loses the committed write |
| Api.StrayNotRestartable | srcs/esp_jrnl.c:277-288 | for every volume with room for a transaction and every checksum: a record that targets its own header is replayed with success once, and started over it is refused |
| Handles.AgreeAdd | srcs/fatfs/vfs/vfs_jrnl_fat_spiflash.c:72-104 | a new handle at a free drive keeps the tables in agreement and no handle shared |
| Handles.AgreeDrop | srcs/fatfs/vfs/vfs_jrnl_fat_spiflash.c:189-220 | dropping a handle from all tables keeps them in agreement |
| Handles.Registry.CheckHandle | srcs/esp_jrnl.c:44-62 | accepts exactly the handles of live instances |
| Handles.Registry.MountInstance | srcs/esp_jrnl.c:415-435 | issues the first unused handle if there is one and the mount succeeds, else changes nothing |
| Handles.Registry.GetDrive | srcs/fatfs/vfs/vfs_jrnl_fat_spiflash.c:40-45 | the first drive FatFS has free, or none is |
| Handles.Registry.RegisterDrive | srcs/fatfs/diskio/diskio_jrnl.c:115-137 | a drive in range gets the handle, and no other entry changes |
| Handles.Registry.FindDrive | srcs/fatfs/diskio/diskio_jrnl.c:139-147 | finds a drive of the handle, or there is none |
| Handles.Registry.ClearDrive | srcs/fatfs/diskio/diskio_jrnl.c:149-156 | exactly the entries of the handle are cleared |
| Handles.Registry.RegisterVfs | srcs/fatfs/vfs/vfs_jrnl_fat.c:1590-1603 | registers at a free drive in range, else changes nothing |
| Handles.Registry.UnregisterVfs | srcs/fatfs/vfs/vfs_jrnl_fat.c:1605-1619 | clears one entry of the handle, or reports that there is none |
| Handles.Registry.Unmount | srcs/fatfs/vfs/vfs_jrnl_fat_spiflash.c:179-230 | a registered handle disappears from all tables, any other changes nothing |
| Handles.Registry.Connect | srcs/fatfs/vfs/vfs_jrnl_fat_spiflash.c:85-162 | the later mount steps register the handle with the VFS or leave that table alone |
| Handles.Registry.Mount | srcs/fatfs/vfs/vfs_jrnl_fat_spiflash.c:22-177 | the outcome is the first failing step, if any; success adds the first free handle at the first free drive in both tables; failure at any step restores every table |
| Handles.Serve | srcs/fatfs/vfs/vfs_jrnl_fat_spiflash.c:22-230 | a mount or an unmount is one whole step on the four tables, with its answer |
| Handles.Run | srcs/fatfs/vfs/vfs_jrnl_fat_spiflash.c:22-230 | any sequence of mounts and unmounts answers and leaves the tables as the sequence of whole steps does, and the tables agree throughout |
| ZeroFill.WriteChunk | srcs/fatfs/vfs/vfs_jrnl_fat.c:928-944 | one chunk appends the zero bytes it reports |
| ZeroFill.WriteZeros | srcs/fatfs/vfs/vfs_jrnl_fat.c:908-949 | succeeds exactly when nothing fails below; no chunk exceeds the buffer, chunks add up to the size, the reported total is the true one and equals the size exactly when no write was short; whatever fails only zeros are added, at most the size |
| ZeroFill.Extend | srcs/fatfs/vfs/vfs_jrnl_fat.c:1003-1022 | an extension is accepted exactly when nothing failed and no write was short, and then grew the file by exactly that many zero bytes, in chunks of at most 512 |

## Left out

- JournalInstance.Journal.Replay: for a log with a record that passes both checksums although it is empty or its ranges leave the file system or the log (`Wild`), only failure-free replay is stated; cut short it may overwrite the very log it reads, as `Api.StrayNotRestartable` shows. `esp_jrnl_write` produces no such record for targets inside the file system, and no modelled lifetime reaches one.
- Mounting.Mount: the same exception; moreover `Own` leaves out records of this volume whose offset field is not the first store sector, which no mount writes; and the search for a free handle is in `Handles`.
- Mounting.Mount: with overwrite, forced format or replay switched off a committed log is dropped and what survived is not kept, because those flags ask for it.
- Client.Perform: a file-system call (FatFS) is any finite list of in-range sector reads and writes with a verdict; what FatFS computes is not modelled.
- Lifetimes.Live: direct mode and formatting are not events of a lifetime, because they are not transactional.
- Handles.Registry.Mount: wear-levelling handles are not modelled, so the mount of the wear-levelling layer that a failure before the journal mount leaves behind does not show.
- Locks and multithreading: one sequential client per instance; the source marks its locking as unfinished.
- CRC-32 itself, wear levelling, FatFS and the VFS registration of paths.
- SDMMC mounting, test-mode restart flags, debug printing, logging, errno mapping, path building.
- Date and time packing, stat cache, directory iteration, seek restoration in pread and pwrite: small, or dependent on FatFS.
