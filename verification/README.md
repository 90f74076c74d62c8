# omnect-os-init in Dafny

omnect-os-init is the init process of the omnect-os initramfs. It runs as PID 1, and what it does wrong costs a
device: it overwrites running disks, wipes partitions, loads kernel modules and keeps boot state across reboots.
This project models the parts of it that change a disk or outlive a boot, and proves what they promise for every
input, every pattern of I/O faults and, where state outlives a boot, every run of boots.

Each module follows one component:

| module | component |
|---|---|
| `BlockMap`, `RawIo`, `BmapCopy`, `ScpFlash` | flash mode 2: gaps of a block map, raw copies, the bmap copy, one flash and the retry loop |
| `Text`, `PartTable`, `PartTableProofs`, `PrintedTable` | flash mode 1: the rewrite of the partition table dump |
| `EarlyModules` | loading kernel modules before the root is switched |
| `FirstBoot` | the first-boot marker and the update flags in the boot environment |
| `FsckRecords` | results of filesystem checks on their way to omnect-device-service |
| `FactoryReset`, `Wipe` | the factory reset, and its random overwrite |
| `Initramfs` | the delete of the initramfs behind the switch to the real root |
| `MountsField` | the mounts of a disk, read from `/proc/mounts` |

How the environment is modelled:

- A disk is an array of fixed length, a reader a sequence with a position. A read gives any number of bytes from one
  to what was asked for; a write may be short, be interrupted or fail. Objects count the faults that the environment
  chose in ghost fields, so that a contract can say both what holds for every fault pattern and that, without
  faults, an operation succeeds exactly under a stated condition.
- In `FirstBoot` and `FsckRecords` a boot may be aborted, and power may be lost, between any two operations on the boot
  environment. A factory reset and a flash are modelled without a loss of power.
- A counter of faults only grows where something outside of the program failed: a read, a write, a sync, a step of
  another tool. A contract that starts with an unchanged counter is one for runs without such a failure. Where the
  program goes on behind a failure, the failures are kept apart (by module, partition, node or kind of operation), so
  that a contract can say that nothing else was given up.
- What happened outside of the program during a factory reset is a trace of operations; the contracts speak about
  a summary of the trace, and `FaultsAreThoseOfTheTrace`, `CarefulMeans` and `OneUnmountForEachMount` tie the summary
  to the trace itself.
- SHA-256 is an arbitrary function of the bytes. Functions of the source that work on values are functions here, and
  functions that change state are methods with loops and fields of their own.

Where the code and its documentation differ, the model follows the code:

- `docs/usage.md:427` says that the result of a filesystem check is kept until the status file is written. The records
  are taken out of the boot environment before that (`src/mode/normal.rs:74-81`), so one failed write of the status, or
  one loss of power in the drain, loses them: `AFailedHandOverLosesARecord`, `ALossOfPowerLosesARecord`. As long as the
  environment itself does not fail, a saved record survives if and only if the boot that took it out wrote its status:
  `TheHandOverThatTookItDecides`. If power is not lost in the drain, that is the first boot behind the save that hands
  a status over: `TheFirstHandOverDecides`. With faults of the environment, `OnlyAFailedHandOverLosesARecord` gives one
  direction.
- `src/lib.rs:115-117` says that a record whose save failed still reaches the status. An older record that is still
  in the environment replaces it at the drain: `RefusedSaveReachesTheStatusUnlessAnOlderRecordIsLeft`, with a boot
  where it happens in `AnOlderRecordReplacesARefusedOne`.
- `docs/usage.md:322` says that the reason is stored when `etc` or `data` cannot be mounted. That is so for all steps
  of the mount except a failed check of the partition and a failed bind mount: `FailureIsFoundUnlessCheckOrBind`.
- `README.md:217-226` lists the status of a reset by mkfs and mount, says that a repeated mkfs comes with a note, and
  that its history is reported. The code is as listed, with one more error for a failed unmount at the end. The note is
  in the context if and only if that unmount did not fail and no step was refused that is blamed on neither partition:
  `NoteIsReported`. A reset whose unmount failed and one whose check was refused, both with a repeated mkfs and no note,
  are in `AFailedUnmountHidesTheNote` and `ARefusedCheckHidesTheNote`. The note on a failed wipe, in contrast, is always
  in the error: `WipeNoteIsReported`.
- Rewriting a partition table dump again changes nothing, unless a line ends in a carriage return, which the second
  rewrite drops: `TextRewriteTwice`, with such a dump in `ASecondRewriteChangesADump`.
- The seeking source of the bmap copy accepts a source that ends behind its last mapped range but before the image
  does, the reading one does not: `BothKindsAgree`, with such a source in `SeekingTakesAMissingTail`.
- A validation boot that cannot write the first-boot marker lets a later boot be a first boot again, as the comment at
  `src/runtime/omnect_device_service.rs:413-415` admits: `ConfirmedUpdateWithoutMarkerIsAFirstBootAgain`.
  `WaivedOnlyAfterAMarkerFault` shows that this is the only way: a write of the marker failed in such a boot.
- `src/mode/factory_reset/wipe.rs:110-111` says that at most one interval of old blocks is left after a power loss. It
  is exactly one interval rounded up to whole chunks, or the device. So the claim holds if and only if the chunk size
  divides the interval, as the constants of the program do, or the device is not longer than the interval:
  `OneIntervalIsLeft`, with an interval where it fails in `MoreThanOneIntervalIsLeft`.
- Splitting a line of `/proc/mounts` at white space loses a mount whose name has a white space that is not escaped,
  such as a carriage return: `LineGivesTheMountBack`, with such a mount in `AMountIsLost`. Newer kernels escape the hash
  too, which is not taken back: there a name must have no hash in addition, `NewerLineGivesTheMountBack`.
- The digits of a device path are sliced one byte behind the last character that is no digit
  (`src/partition/layout.rs:158-165`), which panics if and only if that character has several bytes:
  `CutsInsideAWideCharacter`, with such a name in `ANameIsCutInside`. No line of a well-formed dump has one.

## Model

| member | source | states |
|---|---|---|
| `BlockMap.Unmapped` | src/mode/flash/bmap/mod.rs:71-96 | The gaps are non-empty, in order and separated by mapped bytes; a position is in a gap if and only if it is in the area and no range maps it; gap lengths and mapped bytes add up to the area, with its saturated end. |
| `RawIo.ChunkLen` | src/mode/flash/rawio.rs:42-44 | For every width of usize the chunk is the smaller of the rest and the buffer, and never 0 while bytes are left. |
| `RawIo.ReadRetrying` | src/mode/flash/rawio.rs:101-107 | Interrupted reads are retried until the read succeeds or fails; a read of nothing means the end of the source. |
| `RawIo.WriteFully` | src/mode/flash/rawio.rs:118-131 | Short and interrupted writes go on; the bytes written are a prefix of the chunk at the old position, all of it on success; without faults only a full destination is an error; a write error is told from a full destination. |
| `RawIo.CopyRange` | src/mode/flash/rawio.rs:61-141 | On every exit the destination differs only in a prefix of the window, which holds the source bytes; on success it is the whole window, or up to the end of the source; without faults it succeeds exactly when both sides have the bytes; success means that all is synced, and the error names what happened: an early end of the source at just that place, or a side that failed. |
| `RawIo.ZeroRange` | src/mode/flash/rawio.rs:150-171 | On every exit only a prefix of the range is zeroed and all else is kept; on success the whole range; without faults it succeeds exactly when the range fits the disk; success means that all is synced. |
| `BmapCopy.Input.Read` | src/mode/flash/bmap/copy.rs:107-146 | The position of both kinds of input is the number of bytes consumed, whatever the read gives. |
| `BmapCopy.Input.SkipTo` | src/mode/flash/bmap/copy.rs:120-160 | A skip ends at its target or fails; moving back is always refused and changes nothing; without trouble a stream reaches the target exactly when it is that long, a seekable source always; an end in the middle is reported at its place. |
| `BmapCopy.PassThrough` | src/mode/flash/bmap/copy.rs:55-77 | Whatever the chunks, the hasher is given the bytes of the source in order and the output gets them at their own offsets; without faults it succeeds exactly when the source and the output have the bytes. |
| `BmapCopy.CopyMapped` | src/mode/flash/bmap/copy.rs:172-191 | One range: what reached the output is a prefix of the range with the source bytes; it succeeds without faults exactly when the range is in the source with its declared checksum and fits the output; the error names what failed. |
| `BmapCopy.CopyStream` | src/mode/flash/bmap/copy.rs:165-205 | On every exit only mapped bytes up to a frontier were written, with the source bytes at their own offsets; without faults it succeeds exactly when every checksum matches, the source has the length of the image (a seekable one: at most that) and the output has room; a checksum error names a range that does not match, and an end or a length error is one of the source. |
| `BmapCopy.Copy` | src/mode/flash/bmap/copy.rs:20-53 | The same for the copy with opening and syncing the files: nothing is read or written before its side is open, success means that all is synced, and an error names the content or the side that caused it. |
| `BmapCopy.BothKindsAgree` | src/mode/flash/bmap/copy.rs:96-161 | Two fault-free copies of one source to one disk, reading over the gaps and seeking over them: what the first accepts the second accepts too and leaves the same disk; they agree on success if and only if the source is as long as the image, or its checksums or the disk refuse it anyway. |
| `BmapCopy.SeekingTakesAMissingTail` | src/mode/flash/bmap/copy.rs:96-161 | A source on which they disagree. |
| `BmapCopy.DecodedFileIsAccepted` | src/mode/flash/scp.rs:400-412 | The file that a successful verify pass leaves is a source with the right checksums for the seeking pass and has the image bytes in every mapped range. |
| `ScpFlash.RequiredConstants` | src/mode/flash/scp.rs:71-98 | The constants are accepted exactly when all are set and neither the head in bytes nor the user id overflows; the head then ends where the boot partition does; the constants are those given, and an error names one that is missing or does not fit. |
| `ScpFlash.ZeroGaps` | src/mode/flash/scp.rs:426-435 | Only bytes in gaps are touched, and only to zero them; on success all of them; every error says that the disk is partly written, and without faults it means that a gap does not fit the disk; success leaves nothing unsynced. |
| `ScpFlash.Verify` | src/mode/flash/scp.rs:400-412 | The verify pass writes no disk; without faults it passes exactly the images that the direct pass accepts; what it passes is a source with the right checksums for the seeking pass and the image bytes in every mapped range. |
| `ScpFlash.FlashedDisksAreEqual` | src/mode/flash/scp.rs:400-422 | The bmap, the image, the head and the old disk decide every byte after a flash, so verifying first and flashing directly leave the same disk. |
| `ScpFlash.FlashOnce` | src/mode/flash/scp.rs:377-437 | On success every disk byte is the image byte where it is mapped, 0 where the head is not mapped, the old byte elsewhere; an error that does not say partly written left the disk untouched; on every exit no byte is anything but old, its image byte or an unmapped zero of the head; if no fault was counted, success is equivalent to a good upload, and behind a verify pass the copy itself cannot fail; success leaves nothing unsynced; a missing bmap and a disk that is too small are told from each other; a direct build has no verify pass. |
| `ScpFlash.GapsReachTheEnd` | src/mode/flash/scp.rs:424-426 | The gaps of the head fit the disk exactly when the head does. |
| `ScpFlash.FlashUntilDone` | src/mode/flash/scp.rs:340-360 | The retry loop: the attempts follow each other with nothing else touching the disk, it ends with the first that succeeds or with a pipe that cannot be made again, one pipe for each failed attempt; the error says partly written if and only if some attempt wrote; without faults it succeeds with the first good upload or waits if none is good. |
| `ScpFlash.SetUp` | src/mode/flash/scp.rs:333-338 | Unmounting, the network, the pipe and dropbear, in this order, up to the first that fails. |
| `ScpFlash.Finish` | src/mode/flash/scp.rs:362-373 | The table is read again, and then the EFI entries are written if the system has GRUB; the error names the step that failed. |
| `ScpFlash.Scp` | src/mode/flash/scp.rs:314-374 | Over every list of uploads the attempts are a run that starts with the old disk and ends with the new one; the steps around them are made in order, all of them for a success, and an error names the one that failed; the run log is kept only if no write was ever issued, or an attempt completed and the kernel has read the table of the disk as it is now; success means that nothing is unsynced; without faults the run ends with the first good upload and succeeds, or waits for another one if none is good. |
| `ScpFlash.EveryByteHasAnOrigin` | src/mode/flash/scp.rs:340-360 | Behind failed attempts, however many, each byte of the disk is the one from before the run, or an image byte at its own mapped place or an unmapped zero of the head from an upload whose attempt reported a partly written disk. |
| `ScpFlash.CompletedRun` | src/mode/flash/scp.rs:340-374 | A completed run leaves the disk that its last upload defines on top of what the attempts before left, which is the old disk if none of them wrote. |
| `EarlyModules.NothingNeedsItself` | src/early_modules/moddep.rs:12-17 | In a consistent modules.dep no module depends on itself. |
| `EarlyModules.Session.Finit` | src/early_modules/mod.rs:205-248 | At most one call of the loader; it is a success exactly when the module is live afterwards by it. |
| `EarlyModules.Session.LoadOne` | src/early_modules/mod.rs:196-203 | The outcome is remembered and equals presence; a module with a known outcome is not handed to the loader again. |
| `EarlyModules.Session.LoadNeeds` | src/early_modules/mod.rs:183-192 | On success all that the line names is loaded; a failure needs a name that cannot be read or a module on the line that failed itself; with a consistent modules.dep it leaves the module stuck. |
| `EarlyModules.Session.LoadListed` | src/early_modules/mod.rs:167-194 | A listed module that is reported as loaded is present and remembered as such; one that is not has no line, or failed itself, or has a dependency without a name or one that failed; with a consistent modules.dep the failure is final. |
| `EarlyModules.LoadWith` | src/early_modules/mod.rs:78-106 | The loader gets each module at most once, only while it is not present and only if it is listed or needed; with a consistent modules.dep everything a module needs is present at its call, and the result is exactly the listed modules that are missing at the end; whatever fails, each of them has no line, failed itself, or has something on its line that has no name or failed, so that no failure keeps another module from being tried. |
| `FirstBoot.DetectFirstBoot` | src/lib.rs:87-106 | A first boot is detected only if neither the marker nor an update flag is set, whatever reads fail; without faults also whenever that is so. |
| `FirstBoot.EnsureFirstBootMarker` | src/runtime/omnect_device_service.rs:377-391 | The marker is reported as not set if and only if a write of it failed, whatever the read gave; a marker that can be read as set is not written again. |
| `FirstBoot.ClearUpdateFlag` | src/runtime/omnect_device_service.rs:394-403 | A flag is cleared only if the marker is set, and then, unless its own clear failed, it is. |
| `FirstBoot.HandleUpdateValidation` | src/runtime/omnect_device_service.rs:416-477 | Wherever it stops, a flag is gone only if its trigger file exists and the marker is set; it stops only for a read, a file or a loss of power, or for both validate flags at once, which change nothing; if it does not stop, every flag has its file, the marker is set unless its write failed, and each of the two flags that nothing else resets is gone unless its own clear failed. |
| `FirstBoot.Boot` | src/mode/normal.rs:52-90 | One boot with any faults and any abort is a step of the protocol, with the number of its writes of the marker that failed; it ends early only for a read, a file, contradicting flags or a loss of power; without a failed write it ends with the marker set after an update or a successful first boot. |
| `FirstBoot.NoFirstBootAfterAnUpdate` | src/runtime/omnect_device_service.rs:405-477 | In every run of boots, updates, rollbacks and confirmations: once an update flag was set, no boot is a first boot, unless an update was confirmed whose boot could not set the marker. |
| `FirstBoot.WaivedOnlyAfterAMarkerFault` | src/runtime/omnect_device_service.rs:411-415 | The exception needs a validation boot in which a write of the marker failed. |
| `FirstBoot.FlagsProtectEveryLaterBoot` | src/lib.rs:80-106 | In runs without such a boot, every state after an update has the marker or a flag, and no boot is a first boot. |
| `FirstBoot.ConfirmedUpdateWithoutMarkerIsAFirstBootAgain` | src/runtime/omnect_device_service.rs:413-415 | The exception happens: a run of four events whose last boot is a first boot again. |
| `FirstBoot.MarkerIsFinal` | src/lib.rs:80-106 | Once set, the marker stays, and no later boot is a first boot. |
| `FsckRecords.OdsStatus.RecordFsckResult` | src/runtime/omnect_device_service.rs:223-241 | A result that is not clean replaces the old one of its partition; a clean one changes nothing; other partitions are kept. |
| `FsckRecords.FsckAndRecord` | src/filesystem/boot_sequence.rs:47-73 | The result is recorded even when it ends the boot. |
| `FsckRecords.PersistFsckResults` | src/filesystem/boot_sequence.rs:302-350 | Wherever power is lost, the environment has for each partition what the boot saved last, unless the store refused that, and else its older record; if power is not lost, every record that is not clean was handed to the store; without faults none is refused. |
| `FsckRecords.DrainPartition` | src/filesystem/boot_sequence.rs:368-391 | Whatever fails and wherever power is lost, the record of the partition stays in the environment or is in the status in memory; without either it is in the status only; the record is left behind only if it could not be read or cleared itself. |
| `FsckRecords.DrainFsckEnv` | src/filesystem/boot_sequence.rs:363-392 | The same for all partitions at once, past any failure: unless power is lost, only what could not be read or cleared itself is left behind; a degraded boot keeps its status. |
| `FsckRecords.EveryPartitionIsVisited` | src/filesystem/boot_sequence.rs:25-34 | The drain visits every partition that is checked. |
| `FsckRecords.HandOverStatus` | src/mode/normal.rs:74-81 | The drain and the hand-over behind it: what is no longer in the environment is in the status handed over, which is complete unless power was lost in the drain and becomes a file only if it was not lost at all; without faults a complete one has every record and leaves none behind; with faults it leaves behind only what was refused, could not be read or could not be cleared. |
| `FsckRecords.RunChecks` | src/filesystem/boot_sequence.rs:181-265 | The checks made are those up to the first one that does not pass, and the status has the newest result of them that is not clean; it succeeds exactly when all pass. |
| `FsckRecords.RunInit` | src/mode/normal.rs:52-81 | A boot hands a status over if all checks pass, all steps between work and power is not lost, and never if one of the first two fails; ended anywhere, it leaves the newest record of each partition whose save was not refused in the environment or in the status that it handed over; if power is not lost, what it persisted is the newest result of every check that it made, those of failed resets too, else, behind the first persist, for each partition that or the newest result of the core; without faults it refuses nothing and a complete hand-over leaves nothing behind; a degraded boot does not touch the environment. |
| `FsckRecords.NextKeeps` | src/lib.rs:118-139 | One boot keeps the invariant of a partition whose last save succeeded. |
| `FsckRecords.NoPersistedRecordIsLost` | src/filesystem/boot_sequence.rs:353-392 | In every run of boots, with any faults and losses of power, for every partition whose last save succeeded: the newest saved record is in the environment, or in a status that a boot handed over, or had in memory, behind that save. |
| `FsckRecords.OnlyAFailedHandOverLosesARecord` | docs/usage.md:427-433 | With any faults of the environment: a saved record is in the environment or in a written status, if every status behind the save that held it was written. |
| `FsckRecords.TheHandOverThatTookItDecides` | docs/usage.md:427-433 | In every run in which the environment can be opened and does not fail, wherever power is lost: a saved record is in the environment or in a status file if and only if the hand-over that took it out of the environment, if there was one, became a file. |
| `FsckRecords.TheFirstHandOverDecides` | docs/usage.md:427-433 | If in addition power was not lost in the first drain behind the save: if and only if there was no hand-over behind the save, or the first one became a file. |
| `FsckRecords.EveryRecordIsTakenOnce` | src/filesystem/boot_sequence.rs:353-392 | In every such run a saved record is in the environment and no hand-over behind the save took it, or exactly one took it and had it, and no later file has a record of that partition. |
| `FsckRecords.AFailedHandOverLosesARecord` | src/mode/normal.rs:74-81 | One failed write of the status loses a record although nothing else fails: the run that does it. |
| `FsckRecords.ALossOfPowerLosesARecord` | src/filesystem/boot_sequence.rs:368-391 | So does one loss of power behind the read of a record file, which removes it. |
| `FsckRecords.RefusedSaveReachesTheStatusUnlessAnOlderRecordIsLeft` | src/lib.rs:115-117 | A record whose save was refused is in the status after the drain if and only if no other record of the partition was left in the environment. |
| `FsckRecords.AnOlderRecordReplacesARefusedOne` | src/lib.rs:115-117 | A boot with one refused save and no other fault whose status has the older record. |
| `PartTable.FieldValueWithDigits` | src/mode/flash/sfdisk.rs:298-302 | Reading a field with a digit run gives these digits and what follows them up to the comma. |
| `PartTable.DigitRunAfterSet` | src/mode/flash/sfdisk.rs:312-333 | After a set, the same field is found at the same place and its digit run is the new number. |
| `PartTable.ParseAfterSet` | src/mode/flash/sfdisk.rs:304-333 | Parsing after a set gives the new value if and only if nothing but blanks stood between the old digits and the comma. |
| `PartTable.SetOverwrites` | src/mode/flash/sfdisk.rs:312-333 | A second set forgets the first one; setting the same value twice is setting it once. |
| `PartTable.SizeKeepsStart` | src/mode/flash/sfdisk.rs:298-333 | Setting the size leaves a numeric start as it is, whichever of the two comes first. |
| `PartTable.RewriteBoundInPlace` | src/mode/flash/sfdisk.rs:204-254 | The edit of the vector of lines is the functional rewrite of the bound line, and an error leaves all lines as they were. |
| `PartTable.RewriteDumpInPlace` | src/mode/flash/sfdisk.rs:41-92 | The rewrite in place computes the functional rewrite, on which the theorems below are proved. |
| `PartTable.CutsInsideAWideCharacter` | src/partition/layout.rs:158-165 | The slice that takes the trailing digits of a name is inside a character, and panics, if and only if the last character in front of them has several bytes in UTF-8; otherwise it gives exactly the trailing digits. |
| `PartTable.ANameIsCutInside` | src/partition/layout.rs:158-165 | A name on which the slice panics. |
| `PartTableProofs.SetSizeKeepsPartition` | src/mode/flash/sfdisk.rs:289-333 | Setting the size of a well-formed partition line keeps its partition number and start and gives it the new size. |
| `PartTableProofs.GptBoundEndsWithData` | src/mode/flash/sfdisk.rs:204-225 | The edited last-lba is the last sector of data, its line is still found, and the edit is idempotent. |
| `PartTableProofs.DosBoundEndsWithData` | src/mode/flash/sfdisk.rs:227-254 | The edited extended container keeps its start and ends where data ends, and the edit is idempotent. |
| `PartTableProofs.RewriteEndsTheTableWithData` | src/mode/flash/sfdisk.rs:41-92 | Of every well-formed dump that is accepted, all lines but the data line and the bound line are kept in order, every start and partition number is kept, data has twice its KB in sectors, and the table ends exactly with data. |
| `PartTableProofs.RewriteChangesTwoNumbers` | src/mode/flash/sfdisk.rs:36-40 | Of every dump that is accepted, well-formed or not, at most two lines change, each in one run of digits only. |
| `PartTableProofs.AcceptedDumps` | src/mode/flash/sfdisk.rs:41-92 | A well-formed dump, which is one whose device names are sliced between characters and whose fields are numbers, is accepted if and only if its scale is 512-byte sectors, both lines exist and no value overflows or goes below its container. |
| `PartTableProofs.DataGetsItsBytes` | src/mode/flash/sfdisk.rs:256-287 | In every accepted dump the size of data in sectors, times the sector size that the dump declares, is its size in bytes, and the dump is in sectors. |
| `PrintedTable.EntryIsAPartition` | src/mode/flash/sfdisk.rs:289-295 | For every name of a device that ends in a one-byte character other than a digit, such as `/dev/sda` or `/dev/mmcblk0p`, the printed line of a partition has its number, and is well-formed. |
| `PartTableProofs.PartitionsStayDisjoint` | src/mode/flash/sfdisk.rs:41-92 | With data last, partitions that did not overlap do not overlap after the rewrite, and all end inside the table. |
| `PartTableProofs.RewriteTwiceIsRewriteOnce` | src/mode/flash/sfdisk.rs:41-92 | Rewriting the lines again changes nothing. |
| `PrintedTable.PrintedIsWellFormed` | src/mode/flash/sfdisk.rs:365-440 | Every table, printed as the lines of a dump, is a well-formed dump. |
| `PrintedTable.RewriteOfAPrintedTable` | src/mode/flash/sfdisk.rs:41-92 | Rewriting a printed table is printing the rewritten table: the edit of the text has the effect that the edit of the numbers has, with the same errors, for every table of both layouts, of any devices, unit and sector size; a table that is not in 512-byte sectors is refused. |
| `PrintedTable.PrintedDisjoint` | src/mode/flash/sfdisk.rs:41-92 | A table whose entries do not overlap and whose data is last prints a dump to which the theorem on disjoint partitions applies. |
| `PrintedTable.ATableOfEachLayout` | src/mode/flash/sfdisk.rs:41-92 | For both layouts a table with at least three partitions that do not overlap, with data last, that is accepted with every data size whose bytes can be counted. |
| `PrintedTable.ASecondRewriteChangesADump` | src/mode/flash/sfdisk.rs:53-91 | A well-formed, accepted dump that a second rewrite changes. |
| `PartTableProofs.TextRewriteTwice` | src/mode/flash/sfdisk.rs:53-91 | Rewriting the text again changes nothing if and only if no line ends in a carriage return. |
| `FactoryReset.FaultsAreThoseOfTheTrace` | src/mode/factory_reset/mod.rs:138-401 | The faults in the summary of a trace are those that happened in it. |
| `FactoryReset.CarefulMeans` | src/mode/factory_reset/mod.rs:164-193 | In a careful trace nothing was mounted and no unmount had failed at any wipe or mkfs. |
| `FactoryReset.OneUnmountForEachMount` | src/filesystem/mount.rs:306-326 | In an orderly trace each path was unmounted as often as it was mounted, less the mounts still in place. |
| `FactoryReset.ResolveFindsThePartition` | src/mode/factory_reset/mod.rs:599-646 | Resolving an error by the paths in it gives the partition that the failed step is blamed on: that of a device, an overlay or a bind source, and none for a failed check, a bind target and a bind mount. |
| `FactoryReset.FailureIsFoundUnlessCheckOrBind` | src/mode/factory_reset/mod.rs:599-646 | A failed step that concerns data or etc is resolved to that partition if and only if it is neither a failed check nor a failed bind mount. |
| `FactoryReset.SignalMeansBlamed` | src/mode/factory_reset/mod.rs:655-697 | There is a signal if and only if a step was refused that is blamed on data or etc, with that partition and the text of the error. |
| `FactoryReset.StatusOf` | src/mode/factory_reset/mod.rs:352-481 | The whole status of a reset that destroyed something, from what happened; it has an error text if and only if its code is an error. |
| `FactoryReset.AbortedStatus` | src/mode/factory_reset/mod.rs:105-113 | A reset that destroyed nothing reports Invalid exactly for an unusable request, ConfigError exactly for a missing field or a bad preserve list, and an error otherwise, with the text, no context, no paths and no wiped data. |
| `FactoryReset.NoteIsReported` | README.md:217-226 | After a repeated mkfs the note on it is in the context if and only if neither the last unmount failed behind a mount that worked, nor a step was refused that is blamed on neither partition. |
| `FactoryReset.MkfsNoteIsReported` | src/mode/factory_reset/mod.rs:432-481 | Where mount and unmount worked, the error is the notes on failed wipes, then the note on two failed mkfs, then the last error of the restore. |
| `FactoryReset.WipeNoteIsReported` | src/mode/factory_reset/mod.rs:266-283 | The note on a failed wipe is in the error, whatever else happened. |
| `FactoryReset.EveryFailedWipeIsNamed` | src/mode/factory_reset/mod.rs:241-283 | The partition and the reason of every wipe that failed can be read in the error of the status. |
| `FactoryReset.EveryLostEntryIsNamed` | src/mode/factory_reset/backup_restore.rs:41-72 | Every entry that was not restored can be read in the context of the status, if the last unmount worked. |
| `FactoryReset.MkfsNotesAre` | src/mode/factory_reset/mod.rs:334-349 | The notes on repeated and failed mkfs, word for word for every combination of partitions. |
| `FactoryReset.MountsOfAReset` | src/mode/factory_reset/mod.rs:522-571 | The mounts of a reset, path by path and in order. |
| `FactoryReset.AFailedUnmountHidesTheNote` | src/mode/factory_reset/mod.rs:388-401 | A complete reset whose last unmount fails, with a repeated mkfs that its status does not report. |
| `FactoryReset.ARefusedCheckHidesTheNote` | src/mode/factory_reset/mod.rs:655-697 | A reset with a repeated mkfs and a check of etc that was refused: neither the note nor a signal. |
| `FactoryReset.RestoredStatus` | src/mode/factory_reset/mod.rs:432-481 | Success, warning and error exactly as the table of the documentation says; an error text if and only if it is an error; a context if and only if something was retried or not restored. |
| `FactoryReset.Reset.UnmountTracked` | src/filesystem/mount.rs:306-326 | Every mount on the list is unmounted once, newest first, past any failure; the result tells whether one failed. |
| `FactoryReset.Reset.MountTrackedPartition` | src/filesystem/boot_sequence.rs:158-174 | The check, then the mount of a partition that exists, or the steps before the one that was refused; what is mounted is on the list at once. |
| `FactoryReset.Reset.SetupOverlay` | src/filesystem/overlayfs.rs:79-112 | The preparations in order, then the mount of an overlay, or the steps before the one that was refused. |
| `FactoryReset.Reset.SetupDataOverlayTracked` | src/filesystem/overlayfs.rs:129-162 | Home, then the bind mounts in order, each with its directories, or the steps before the one that was refused; what they mounted is on the list. |
| `FactoryReset.Reset.FactoryResetMount` | src/mode/factory_reset/mod.rs:522-571 | All steps of the plan were made in order, or those before the one that was refused, whose error it is; what they mounted is on the list. |
| `FactoryReset.Reset.BackupAll` | src/mode/factory_reset/backup_restore.rs:20-33 | On success the manifest is the list of the entries that exist, in order, and just these were copied; on an error, of the directory or of one copy, those before it were. |
| `FactoryReset.Reset.RestoreAll` | src/mode/factory_reset/backup_restore.rs:41-72 | Every entry of the manifest is tried in order, past any failure; the result is partial if and only if one failed, with a note for each of them and the last error. |
| `FactoryReset.Reset.WipePartitions` | src/mode/factory_reset/mod.rs:241-264 | Mode 1 wipes nothing; mode 2 overwrites and mode 3 discards etc, then data, each whatever happens to the other; the note has one entry for each that failed. |
| `FactoryReset.Reset.ReformatBoth` | src/mode/factory_reset/mod.rs:660-677 | Data, then etc, each once and once more if the first mkfs failed; the two lists name exactly the partitions with one and with two failures. |
| `FactoryReset.Reset.MountAll` | src/mode/factory_reset/mod.rs:305-311 | Everything is mounted, step by step of the plan, or nothing is left and the error is that of the refused step. |
| `FactoryReset.Reset.ReformatAndMountWithRetry` | src/mode/factory_reset/mod.rs:655-697 | The mount is made once, after both mkfs and whatever came of them; it is exhausted exactly when the failed step is blamed on data or etc. |
| `FactoryReset.Reset.RunDestructivePhase` | src/mode/factory_reset/mod.rs:352-401 | Nothing is left on the list; what was backed up is restored exactly when the mount worked; code, error, context and signal are those that belong to what happened. |
| `FactoryReset.Reset.WipeAndRebuild` | src/mode/factory_reset/mod.rs:209-217 | The wipe comes before the rebuild, and the notes on its failures are in front of the error of the rebuild, whatever that was. |
| `FactoryReset.Reset.RunReset` | src/mode/factory_reset/mod.rs:138-193 | For every fault pattern: each mount was unmounted once, newest first; nothing was mounted at a wipe or a mkfs; it fails exactly if nothing was destroyed, and then for a fault before that; otherwise code, error, context and signal are those that belong to what happened, and exactly the entries that exist were backed up, with everything mounted; both mounts went through their plan up to the step that was refused, and an early end tells how far it had come. |
| `FactoryReset.Reset.AnswerTrigger` | src/mode/factory_reset/mod.rs:56-90 | The status says that data was wiped exactly when a wipe or a mkfs was issued; if none was, its code, text and all else are those of the error that stopped the reset; an unusable trigger has an empty trace; unless its own clear failed, the trigger is cleared, and unless its own write failed, the stored signal is that of the reset, or the old one if the reset has none. |
| `Wipe.ChunkLen` | src/mode/factory_reset/wipe.rs:118-123 | A chunk is never empty before the end, stays inside the length, and is a full one unless it is the last. |
| `Wipe.WriteRandomChunk` | src/mode/factory_reset/wipe.rs:102-105 | The chunk on the disk is what the random source gave, or a prefix of it after an error. |
| `Wipe.OneMoreChunk` | src/mode/factory_reset/wipe.rs:107-113 | A chunk keeps the bound on unsynced bytes, which is the interval rounded up to whole chunks, and the first sync that becomes due comes with the bound filled. |
| `Wipe.OneIntervalIsLeft` | src/mode/factory_reset/wipe.rs:107-113 | At most one interval is unsynced if and only if the chunk size divides a positive interval, or the length is not above the interval. |
| `Wipe.MoreThanOneIntervalIsLeft` | src/mode/factory_reset/wipe.rs:107-113 | An interval and a length where more is. |
| `Wipe.OverwriteWithRandom` | src/mode/factory_reset/wipe.rs:90-116 | It ends; on success exactly the bytes below the length are random and all are synced; after an error a prefix of them is; the most that is unsynced at any point is the bound, or the length if that is less, and on success no less, also when the next step saturates; on a fresh device that is at most one interval exactly under the condition of `OneIntervalIsLeft`; without faults it succeeds exactly when the length fits. |
| `Wipe.WipeRandom` | src/mode/factory_reset/wipe.rs:35-46 | The whole device, unless it is mounted; at most one interval of old content can come back after a power loss. |
| `Initramfs.DeleteEntry` | src/runtime/switch_root.rs:210-232 | One entry of a directory, whatever fails: only nodes reached on the device below it go, what the walk did not lose was tried, what was tried stays only if it was refused or has something in it, and every attempt and failure is counted. |
| `Initramfs.DeleteContents` | src/runtime/switch_root.rs:202-234 | The same for all below a directory; the tree stays a tree; the nodes left and the nodes counted as deleted are those there were. |
| `Initramfs.SomethingOffDeviceBelow` | src/runtime/switch_root.rs:200-201 | Without faults, whatever is left has something on another device on the way to it or in it. |
| `Initramfs.FreeInitramfs` | src/runtime/switch_root.rs:183-192 | No node on another device goes, nor anything below one; deleted is the number of nodes gone, and deleted and failed together count every attempt, unreadable directory and entry without metadata; whatever fails, every node on the device was tried unless it or a directory on the way was not listed or had no metadata, and what was tried stays only if its removal was refused or something in it stays; without faults just what is on another device is left and the directories on the way to it. |
| `MountsField.OnePassTakesBackOneEscape` | src/mode/flash/unmount.rs:100-106 | One replacement over the whole string takes back one escape, as long as backslashes are still escaped. |
| `MountsField.DecodeInvertsEncode` | src/mode/flash/unmount.rs:22-29 | The four replacements, one after the other, invert the escaping of every string. |
| `MountsField.OnlyTheBackslashMustComeLast` | src/mode/flash/unmount.rs:24-29 | Of all orders of the four replacements exactly those with the backslash last invert the escaping of every string. |
| `MountsField.LineGivesTheMountBack` | src/mode/flash/unmount.rs:86-94 | A line gives back its source and mount point if and only if neither is empty and neither has a white space that is not escaped. |
| `MountsField.AMountIsLost` | src/mode/flash/unmount.rs:86-94 | A mount point with a carriage return that its line does not give back. |
| `MountsField.NewerLineGivesTheMountBack` | src/mode/flash/unmount.rs:22-29 | A line of a kernel that escapes the hash as well gives the mount back if and only if, in addition, neither name has a hash. |
| `MountsField.BackedIsExact` | src/mode/flash/unmount.rs:81-95 | Of a table of such lines exactly the mounts on the disk are taken, in order. |
| `MountsField.MountsOfATable` | src/mode/flash/unmount.rs:77-98 | From the text of a table whose names have no white space that is not escaped, the result is the mount points on the disk, deepest first. |
| `MountsField.DepthCountsTheComponents` | src/mode/flash/unmount.rs:95 | The key of the sort is the number of components of a path, with the root or a leading dot as one of them. |
| `MountsField.SortOrders` | src/mode/flash/unmount.rs:96 | The sort gives a permutation, deepest first. |
| `MountsField.NestedMountsGoFirst` | src/mode/flash/unmount.rs:77-98 | A mount comes before every mount that it is nested in, and each is taken down as often as it is listed. |

## Left out

- `src/mode/flash/bmap/parse.rs`, `xz.rs` and the URL handling: the block map is assumed checked, and the decoder is a source of bytes.
- SHA-256, gzip and base64: arbitrary functions, or a faithful store of records whose operations may fail. A record that does not decode, and output that is too large for the GRUB environment, are not modelled.
- The wait for an operator without end in flash mode 2 is a finite list of uploads; interrupted calls end after finitely many interrupts.
- The source and the destination of `RawIo.CopyRange` are different devices.
- Texts are sequences of characters, not of bytes. Where a device name is sliced inside a character the source panics and `RewriteLines` goes on; the theorems on well-formed dumps leave such names out.
- `PrintedTable.RewriteOfAPrintedTable`: a printed table has one blank in front of a number, and of the header only the lines that the rewrite reads; other dumps are covered by the theorems on well-formed dumps.
- The logs of a filesystem check, the run log of a flash mode and all log lines: they change no state that is modelled here.
- The filesystem check inside the resize of the data partition: it does not pass through the records.
- An abort other than a loss of power between the drain of the records and the hand-over of the status: creating the links comes before the drain, so there is no step in between that could end the boot.
- A loss of power inside one operation on the boot environment counts as one in front of it or behind it, or as a failed save.
- Loss of power during a factory reset or a flash; that the memory in which the status file is kept is lost with the power is not modelled either.
- The configuration file of an update validation, which a boot without one removes; the messages to the operator and the files of an upload that flash mode 2 removes between attempts; a layout without a boot partition.
- The seeding of the upper directory of the etc overlay is one step, also where the directory is not empty and nothing is copied.
- Loss of power inside the write of a status or a trigger file, file modes and owners.
- Parsing of modules.dep, modules.builtin and the module lists; parameters and compression of a module. An already loaded module reported by the kernel counts as present.
- The list of paths to preserve of a factory reset is an arbitrary list, or one of its errors; what a path of it means to `cp` is not modelled, only which entries are copied and restored.
- The discard of mode 3: one ioctl that succeeds or fails.
- The stored signal of a reset keeps the whole text; that the boot environment cuts it to 128 bytes is not modelled.
- `FactoryReset.ResolveFindsThePartition` and the signal of a reset assume that the devices differ and are not below the root file system, which the comment in the source names as its coupling.
- `Initramfs.FreeInitramfs`: a directory is listed before its entries are deleted, and nobody else changes the tree.
- The recovery decision, boot mode detection, exit code predicates, network, EFI and bootloader tools: tables and calls that one reading settles.
