# ForwardOS kernel: verified model of storage, memory and networking

This project models the parts of the ForwardOS kernel that keep state others rely on, and proves what they promise:

* the FAT32 driver and the file calls: sectors behind one transfer buffer, the FAT, cluster chains, the root
  directory, the descriptor table, open, close, seek, lseek, read and write;
* the physical frame allocator, its set-up from the firmware's memory map, and the map and unmap calls;
* the page tables built from it, walked as section 4.5 of the Intel SDM, Volume 3A, describes;
* the ELF loader, which runs on top of the file calls and the allocator (System V gABI chapter 5, "Program Header");
* the E1000 receive ring (section 3.2.6 of Intel's PCI/PCI-X Gigabit Ethernet Controllers Software Developer's Manual);
* the IPv4, UDP and ICMP checksums (RFC 1071, RFC 768).

The modules, bottom up: `Bytes` (words, splicing, blocks), `Layout` (integers as bytes), `FileModel` (the calls as
their callers see them, with no sectors, chains or FAT), `FileRuns` (theorems about whole runs of calls), `Fat` (the
table as a flat array, chains), `Volume` (disk layout), `Directory` (entries as a list), `FileState` (what a mounted
volume keeps), `FileWrite` (how one write call evolves), `Refinement` (the driver implements `FileModel`), `OnDisk`
(boot sectors, directory entries and names as written and read back), `SmallVolume` (example disks of every geometry),
`FileSystem` (the driver itself), `Ram`, `Frames`, `Paging`, `ElfLoader`, `ElfFile` (executable files as written and
loaded), `RxRing`, `Checksum`. Check everything with `dafny verify dfyconfig.toml`.

## How to read the file system part

The disk is a sequence of 512-byte sectors, and every transfer goes through one 512-byte buffer. `VolumeOk` is what every
call keeps: the boot sectors parse, every recorded chain is linked, ended, free of cycles and apart from all others, and
the size of every live root entry is covered by its chain. `FileSystem.Serve` runs any list of calls and proves it a run
of `FileModel`, where a file is a byte sequence and a descriptor a cursor. `FileRuns` then proves facts about all such
runs, so they hold of the driver.

The exact result of a write is part of its contract. Let *reach* be the bytes of the file's own clusters plus those of
all free clusters. A write of `len` bytes at `pos` returns -1 if `reach <= pos`, and otherwise `min(len, reach - pos)`.
It takes no cluster the data does not reach. When it returns -1, it has by then appended every free cluster to the file.

Five facts about the code that a maintainer should know, each stated by a member below:

* The size is stored in 32 bits. A write that ends at or past 2^32 leaves a smaller size, so reading back what was
  written works if and only if the end is below 2^32 (`RoundTrip`, `SizeWraps`).
* Every descriptor has its own copy of the size. Directory and descriptors, equal at the start of a run, stay so if
  and only if none of its calls is a successful write that changes the size its descriptor knows while another
  descriptor is open on the same file (`RunCoherent`); a run that never has a file open twice is safe
  (`RunKeepsCoherent`), and opening a file twice and then growing it is not (`TwoDescriptorsDisagree`).
* A request for zero sectors always fails in `allocate_sectors`, and never fails in `allocate_aligned` while an aligned
  sector is free. For every alignment that divides 4096 the two therefore agree if and only if at least one sector is
  asked for or none is free (`AllocatorsAgree`).
* The port and length fields of a UDP header are swapped twice and come out lowest byte first (`BuildUdpPacket`), so such
  a field reads back right in network byte order if and only if its two bytes are equal (`SwappedReads`). The checksum
  is right for the bytes as they are.
* Boot takes a memory region to begin on the page its start falls into. All pages ever handed out lie in usable regions
  if and only if, for every usable region that starts off a page boundary (at or above 0x4000000 and below the total),
  the page its start falls into lies in some usable region (`HandedOutUsable`, `UnalignedRegion`). UEFI promises aligned
  starts, so a map that fails this is one the code does not reject, not one that conforming firmware sends.

Arithmetic follows a release build: sums wrap at the width of their type where the code could reach it (file sizes,
lseek targets, ELF addresses, the IPv4 total length).

## Model

| member | source | states |
|---|---|---|
| Fat.Stored | kernel/src/boot/sys_write_file.rs:107-109 | a stored entry takes the value's low 28 bits, keeps its own top 4, and stays a 32-bit word |
| OnDisk.StoreReplaces | kernel/src/boot/sys_write_file.rs:107-109 | with the 4 top bits and the 28-bit link given as numbers: the link becomes the value, the top bits stay |
| OnDisk.EndMarkers | kernel/src/boot/sys_write_file.rs:20-27 | a chain goes on unless the 28 bits are zero or one of 0x0FFFFFF8 to 0x0FFFFFFF; an entry is free exactly if they are zero |
| Layout.StoresLowestFirst | kernel/src/boot/sys_write_file.rs:106-110 | a 32-bit word is stored lowest byte first |
| Fat.LowestFree | kernel/src/boot/sys_write_file.rs:77-91 | the lowest free cluster from the start on; None exactly when no cluster is free |
| Fat.ChainUnique | kernel/src/boot/sys_write_file.rs:7-28 | the table and the first cluster determine the whole chain |
| Fat.LinkedAcyclic | kernel/src/boot/sys_write_file.rs:20-26 | a chain that reaches an end marker never visits a cluster twice |
| Fat.TailApart | kernel/src/boot/sys_write_file.rs:7-28 | later clusters of a chain are none of the earlier ones |
| Fat.ChainsMerge | kernel/src/boot/sys_write_file.rs:20-26 | two chains that share a cluster share everything after it |
| Fat.LinkedBetweenStores | kernel/src/boot/sys_write_file.rs:205-206 | after the first of the two stores the chain as followed is already the extended, ended one |
| Fat.BetweenStores | kernel/src/boot/sys_write_file.rs:233-234 | between the stores every other chain is as it was |
| Fat.LinkedAfterAppend | kernel/src/boot/sys_write_file.rs:205-206 | after both stores the longer chain is linked, ended and occupied |
| Fat.AppendKeepsChains | kernel/src/boot/sys_write_file.rs:199-214 | appending a free cluster keeps all chains linked and pairwise disjoint and uses up exactly that free cluster |
| Fat.AppendGrows | kernel/src/boot/sys_write_file.rs:94-112 | no entry outside the grown chain changes and no entry loses its top 4 bits |
| Fat.ChainGrewTrans | kernel/src/boot/sys_write_file.rs:196-241 | growth over many appends: clusters gained were free at the start, and free count plus chain length is constant |
| Volume.StaysMounted | kernel/src/file.rs:56-86 | writes past the reserved sectors leave the parsed geometry the same |
| Volume.LbaBounds | kernel/src/file.rs:88-94 | every named cluster lies after the first FAT copy and inside the disk |
| Volume.LbaDisjoint | kernel/src/file.rs:88-90 | distinct clusters occupy disjoint sector ranges |
| Volume.AfterAllCopies | kernel/src/file.rs:72-90 | every named cluster lies after every sector of every FAT copy |
| Volume.NoGap | kernel/src/file.rs:72-90 | from the end of the last copy on, every sector of the data area belongs to exactly one cluster, in order |
| Volume.ClusterWriteSparesCopies | kernel/src/boot/sys_write_file.rs:128-145 | a write inside a cluster changes no FAT copy |
| OnDisk.GeometryAsWritten | kernel/src/file.rs:5-24 | for all field values, the driver reads back the geometry that boot record and boot sector were written with |
| Volume.FatSectorBounds | kernel/src/boot/sys_write_file.rs:102-104 | every entry lies whole inside one sector of the first FAT copy |
| Volume.FatView | kernel/src/boot/sys_write_file.rs:15-21 | sector-by-sector FAT reads see one flat array |
| Volume.FatIsArray | kernel/src/boot/fd.rs:83-93 | entry c is the word at byte 4c of the first copy's sectors laid end to end |
| Volume.StoreFatView | kernel/src/boot/sys_write_file.rs:94-112 | a FAT store changes one entry of the flat array and no sector outside the first FAT copy |
| Volume.FatViewSame | kernel/src/boot/sys_write_file.rs:114-148 | writes after the first FAT copy leave the whole table unchanged |
| Volume.ChainBytesAppend | kernel/src/boot/fd.rs:196-214 | the bytes of a chain are those of its parts, in order |
| Volume.ChainBytesAfterFat | kernel/src/boot/sys_write_file.rs:94-112 | FAT stores change no chain's bytes |
| Volume.ChainBytesElsewhere | kernel/src/boot/sys_write_file.rs:114-148 | writing a cluster changes no chain without it |
| Volume.ChainBytesWrite | kernel/src/boot/sys_write_file.rs:220-226 | overwriting inside the i-th cluster overwrites the file at i times the cluster size plus the offset |
| Directory.FirstMatchMeans | kernel/src/file.rs:131-166 | the scan finds an entry if and only if it is live, matches, and no earlier live entry does |
| OnDisk.EntryReadBack | kernel/src/file.rs:26-40 | for all field values: end mark, hidden entries, both halves of the first cluster, size and name are read as written |
| OnDisk.NameShown | kernel/src/file.rs:144-151 | an entry for a padded base and extension shows as NAME.EXT, without dot if there is no extension |
| OnDisk.CaseRule | kernel/src/file.rs:153 | names are compared up to the case of the letters A to Z and in nothing else |
| OnDisk.FoundByName | kernel/src/file.rs:144-153 | such an entry matches a name if and only if the name is NAME.EXT up to case |
| OnDisk.LookupFinds | kernel/src/file.rs:137-158 | the first live entry so written is what a lookup of its name finds, with the cluster and size written |
| Directory.WithSizeEntry | kernel/src/boot/sys_write_file.rs:293-297 | a size update changes only that entry, and of it only the last four bytes |
| Directory.WithSizeFirstMatch | kernel/src/file.rs:138-158 | a size update changes the outcome of no lookup, by name or by cluster |
| Directory.ListingLookup | kernel/src/file.rs:127-167 | scanning raw entries agrees with searching the list of visible records |
| Directory.ListingResized | kernel/src/boot/sys_write_file.rs:279-298 | the update resizes the first record of that cluster and no other |
| FileModel.FreeSlot | kernel/src/boot/fd.rs:25-40 | the lowest unused slot from the start on, None exactly when every slot from there on is used |
| FileModel.CountsAreMost | kernel/src/boot/fd.rs:157-161 | a byte is moved exactly if it is asked for and lies before the end of the file, or of the reach of a write |
| FileState.AppendKeepsVolume | kernel/src/boot/sys_write_file.rs:197-213 | appending a cluster keeps the volume well formed, directory included, and touches only the FAT |
| FileState.SeenBetweenStores | kernel/src/boot/sys_write_file.rs:205-206 | on the disk between the two stores every chain is linked, the growing one already extended |
| FileState.DataWriteKeepsVolume | kernel/src/boot/sys_write_file.rs:114-148 | writing a file's cluster keeps the volume, the table, and all sectors outside the file |
| FileState.DirOkResized | kernel/src/boot/sys_write_file.rs:268-306 | a covered size keeps the directory well formed |
| FileState.SizeWriteKeepsVolume | kernel/src/boot/sys_write_file.rs:268-306 | the directory update keeps the volume, the table, and the bytes of every file |
| FileState.FrameChain | kernel/src/boot/sys_write_file.rs:114-148 | a chain that shares no cluster with the written one keeps its bytes |
| FileState.EntryInSector | kernel/src/file.rs:131-139 | entry m of the directory is the j-th of sector s of its i-th cluster |
| FileState.SizeInSector | kernel/src/boot/sys_write_file.rs:291-298 | patching that sector patches the size field of entry m |
| FileState.EntryBacked | kernel/src/file.rs:153-157 | what a lookup returns is backed by a chain large enough |
| FileWrite.ExtendHolds | kernel/src/boot/sys_write_file.rs:228-241 | clusters gained during the call still hold what the disk held there before |
| FileWrite.WriteHolds | kernel/src/boot/sys_write_file.rs:220-226 | each chunk extends the written prefix, across cluster borders |
| FileWrite.ReachKept | kernel/src/boot/sys_write_file.rs:196-243 | chain length plus free clusters is conserved during the call |
| FileWrite.WrittenInReach | kernel/src/boot/sys_write_file.rs:216-243 | the number of bytes written is exactly min(len, reach - pos) |
| FileWrite.ExtendOthers | kernel/src/boot/sys_write_file.rs:196-243 | every other chain keeps its clusters and bytes |
| FileWrite.DirUpdateKeeps | kernel/src/boot/sys_write_file.rs:268-306 | whether or not an entry is found, the update keeps the volume and all files |
| FileWrite.FurtherCopiesKept | kernel/src/boot/sys_write_file.rs:94-112 | a write call changes no FAT copy but the first |
| FileWrite.FinishKept | kernel/src/boot/sys_write_file.rs:207-211 | a failed or size-keeping call: exact outcome, directory untouched |
| FileWrite.FinishGrown | kernel/src/boot/sys_write_file.rs:245-252 | a growing call: exact outcome with the directory entry updated |
| FileSystem.FileSystem.Init | kernel/src/file.rs:56-86 | the geometry the boot sectors describe; None unless sectors are 512 bytes |
| FileSystem.FileSystem.NextCluster | kernel/src/boot/fd.rs:73-94 | the flat table's link, None at an end marker or zero |
| FileSystem.FileSystem.AllocCluster | kernel/src/boot/sys_write_file.rs:66-92 | the sector-by-sector search returns the flat table's lowest free cluster from 2 on |
| FileSystem.FileSystem.SetFatEntry | kernel/src/boot/sys_write_file.rs:94-112 | the disk changes by exactly one stored entry |
| FileSystem.FileSystem.CopyIn | kernel/src/boot/sys_write_file.rs:132-143 | the buffer becomes the sector of the spliced cluster |
| FileSystem.FileSystem.WriteCluster | kernel/src/boot/sys_write_file.rs:114-148 | cluster bytes B become B[..off] + data[..n] + B[off+n..], nothing else changes, no FAT copy in particular, n is returned |
| FileSystem.FileSystem.ReadCluster | kernel/src/boot/fd.rs:96-132 | memory receives B[off..off+n], nothing else changes, n is returned |
| FileSystem.FileSystem.BuildName | kernel/src/file.rs:144-151 | the name buffer holds the entry's display name |
| FileSystem.FileSystem.ScanSector | kernel/src/file.rs:137-158 | one sector's part of the scan |
| FileSystem.FileSystem.Scan | kernel/src/file.rs:131-166 | the nested loops find the first match of the flattened directory, and terminate on every chain |
| FileSystem.FileSystem.FindEntry | kernel/src/file.rs:127-167 | first cluster and size of the first entry of that name |
| FileSystem.FileSystem.UpdateDirEntry | kernel/src/boot/sys_write_file.rs:268-306 | the size field of the first entry for that cluster changes, or nothing |
| FileSystem.FileSystem.NextOrExtend | kernel/src/boot/sys_write_file.rs:197-213 | next cluster of the chain, appending one if needed; None exactly when the chain ends and nothing is free |
| FileSystem.FileSystem.SeekExtending | kernel/src/boot/sys_write_file.rs:194-214 | reaches the cluster holding the position, or the position is out of reach |
| FileSystem.FileSystem.WriteChunks | kernel/src/boot/sys_write_file.rs:216-243 | the chain holds the written prefix at the position; short only when the disk is full |
| FileSystem.FileSystem.Commit | kernel/src/boot/sys_write_file.rs:245-252 | descriptor and directory after the call |
| FileSystem.FileSystem.WriteFile | kernel/src/boot/sys_write_file.rs:150-266 | rejected calls change nothing; accepted calls have exactly the outcome `WriteOutcome`, on success and on failure |
| FileSystem.FileSystem.SeekReading | kernel/src/boot/fd.rs:176-188 | a position inside the chain is always reached |
| FileSystem.FileSystem.ReadChunks | kernel/src/boot/fd.rs:190-214 | all requested bytes are copied: the loop never breaks off early |
| FileSystem.FileSystem.ReadFile | kernel/src/boot/fd.rs:134-221 | exactly min(len, size - pos) bytes of the file arrive, and the position moves by as many |
| FileSystem.FileSystem.AllocateFd | kernel/src/boot/fd.rs:25-40 | the first free slot from 3 on gets the descriptor; -1 if there is none |
| FileSystem.FileSystem.Open | kernel/src/boot/fd.rs:223-251 | opens the first entry of that name at position 0 |
| FileSystem.FileSystem.Close | kernel/src/boot/fd.rs:62-71 | empties slots 3 to 255 and refuses others |
| FileSystem.FileSystem.LSeek | kernel/src/boot/fd.rs:253-275 | moves to the target or leaves the descriptor alone |
| FileSystem.FileSystem.Seek | kernel/src/boot/fd.rs:300-308 | sets the position |
| FileSystem.FileSystem.Syscall | kernel/src/interrupts.rs:97-119 | every call is a step of the callers' files |
| FileSystem.FileSystem.Serve | kernel/src/interrupts.rs:70-119 | every sequence of calls is a run of the callers' files and keeps the volume well formed |
| Refinement.WriteRefines | kernel/src/boot/sys_write_file.rs:190-252 | the write's effect on sectors is a write step on byte sequences |
| Refinement.ReadRefines | kernel/src/boot/fd.rs:157-220 | the read's effect is a read step on byte sequences |
| Refinement.OpenRefines | kernel/src/boot/fd.rs:238-250 | the open's effect is a lookup in the listing |
| Refinement.ListingUnique | kernel/src/boot/sys_write_file.rs:292-298 | the listing names every file at most once |
| Refinement.SnapshotSound | kernel/src/boot/fd.rs:157-161 | every size known to a descriptor or the directory is covered by the file's bytes |
| Refinement.FoundAfterWrite | kernel/src/boot/sys_write_file.rs:245-252 | after a growing write a lookup by name gives the same cluster and the new size; all other entries are byte-identical |
| SmallVolume.Presented | kernel/src/file.rs:56-94 | for every partition start, number of reserved sectors, FAT copies, sectors per cluster and free clusters, a concrete disk satisfies `VolumeOk` and presents the state the failing runs start from |
| FileRuns.StepKeepsSound | kernel/src/boot/sys_write_file.rs:245-252 | every call keeps all sizes covered, with any number of descriptors |
| FileRuns.RunKeepsSound | kernel/src/boot/fd.rs:134-308 | the same over whole runs |
| FileRuns.StepSpares | kernel/src/boot/sys_write_file.rs:150-266 | a call that does not write over given bytes of a file leaves them |
| FileRuns.RunSpares | kernel/src/boot/sys_write_file.rs:150-266 | the same over whole runs |
| FileRuns.RunLeavesFd | kernel/src/boot/fd.rs:134-308 | a descriptor not closed, and written only below 2^32, keeps its file and never knows of fewer bytes over whole runs; unwritten, it knows of the same |
| FileRuns.ReadGets | kernel/src/boot/fd.rs:176-220 | a read of n bytes present at the position returns them all if and only if the known size covers them |
| FileRuns.RoundTrip | kernel/src/boot/sys_write_file.rs:190-252 | after a write of n bytes at p and any run that spares them, leaves the descriptor open and writes through it only below 2^32, seek and read give them back if and only if p + n is below 2^32 |
| FileRuns.SizeWraps | kernel/src/boot/sys_write_file.rs:248 | a whole run, from an empty table, in which one byte written at 2^32 - 1 is in the file and cannot be read back |
| FileRuns.SeekLands | kernel/src/boot/fd.rs:262-274 | for every position, size and 64-bit offset: lseek goes to the 64-bit sum and fails when that is negative, so it reaches base plus offset if and only if that is at least 0 and below 2^63 |
| FileRuns.StepCoherent | kernel/src/boot/sys_write_file.rs:245-252 | a call keeps directory and descriptor sizes equal if and only if it is no successful write that changes the known size of a file with another descriptor open |
| FileRuns.RunCoherent | kernel/src/boot/sys_write_file.rs:245-252 | a run keeps them equal throughout if and only if every call meets that condition in the state it finds |
| FileRuns.RunKeepsCoherent | kernel/src/boot/fd.rs:25-40 | a run from an empty table that never has a file open twice keeps them equal |
| FileRuns.TwoDescriptorsDisagree | kernel/src/boot/sys_write_file.rs:247-251 | a whole run, from an empty table: a file opened twice, one byte written, and the sizes differ |
| FileRuns.Reopen | kernel/src/boot/fd.rs:223-251 | closing a file and opening it again gives the same cluster and size |
| FileRuns.RunKeepsNames | kernel/src/boot/sys_write_file.rs:268-306 | no run of calls changes which file a name leads to |
| FileRuns.SurvivesReopen | kernel/src/boot/fd.rs:134-308 | after a write of n bytes at p and any run that spares them and keeps sizes together, close, open by name, seek and read give them back if and only if p + n is below 2^32 |
| FileRuns.RunConserves | kernel/src/boot/sys_write_file.rs:199-214 | over every run, what files gain is exactly what free room loses |
| Ram.SetBit | kernel/src/ram.rs:39 | the byte operation sets one bit and keeps seven |
| Ram.ClearBit | kernel/src/ram.rs:51 | the byte operation clears one bit and keeps seven |
| Ram.MaskIsShift | kernel/src/ram.rs:36-39 | the masks are the shifts of one: bit k counts from the lowest |
| Ram.BitsInjective | kernel/src/ram.rs:31-62 | bitmaps with the same bits have the same bytes |
| Ram.FirstFit | kernel/src/ram.rs:86-108 | the lowest aligned start of n free sectors; None exactly when there is none |
| Ram.AlignmentWithinPage | kernel/src/ram.rs:86-108 | an alignment that divides 4096 changes no answer of first fit |
| Ram.AllocatorsAgree | kernel/src/ram.rs:65-108 | for such an alignment the two allocators give the same answer and bitmap if and only if at least one sector is asked for or none is free |
| Ram.NoFitPastUsed | kernel/src/ram.rs:80 | resetting the counter at a used sector skips no fitting start |
| Ram.CountFree | kernel/src/ram.rs:71-78 | one more free sector either continues the run or completes the lowest fitting one |
| Ram.RamManager.constructor | kernel/src/ram.rs:15-30 | everything starts used |
| Ram.RamManager.MarkUsed | kernel/src/ram.rs:32-42 | sets exactly that sector's bit, or nothing beyond the end |
| Ram.RamManager.MarkFree | kernel/src/ram.rs:44-53 | clears exactly that sector's bit, or nothing beyond the end |
| Ram.RamManager.IsUsed | kernel/src/ram.rs:55-62 | reads that bit; sectors beyond the end count as used |
| Ram.RamManager.AllocateSectors | kernel/src/ram.rs:65-84 | the one-pass run counter equals naive first fit in result and bitmap; zero sectors never succeed |
| Ram.RamManager.AllocateAligned | kernel/src/ram.rs:86-108 | the aligned search equals naive aligned first fit in result and bitmap |
| Frames.Boot | kernel/src/main.rs:148-166 | after boot exactly the sectors below the total that a usable region at or above 0x4000000 offers are free |
| Frames.TotalIsSum | kernel/src/main.rs:150-153 | the total adds up over any split of the map, and only regions of type 7 count |
| Frames.SysMmap | kernel/src/interrupts.rs:120-123 | result and bitmap of the map call |
| Frames.SysMunmap | kernel/src/interrupts.rs:178-190 | clears the bits of the whole range and no other |
| Frames.UnmapRestores | kernel/src/interrupts.rs:184-187 | unmapping a block just mapped gives the bitmap there was before |
| Frames.MapAgain | kernel/src/interrupts.rs:120-123 | map, unmap, map: the bitmap is restored byte for byte in between and the second address is the first |
| Frames.Serve | kernel/src/interrupts.rs:120-127 | any sequence of map and unmap calls on the allocator is one of the runs below |
| Frames.Accounting | kernel/src/ram.rs:65-84 | over every run sectors in use are the reserved and the outstanding ones, never both |
| Frames.Conservation | kernel/src/interrupts.rs:120-127 | free, outstanding and reserved sectors add up to the total |
| Frames.HandedOutFresh | kernel/src/ram.rs:71-81 | what a call hands out is outstanding to nobody |
| Frames.NoDoubleHandout | kernel/src/interrupts.rs:178-190 | a sector is handed out again only after it was unmapped in between |
| Frames.HandsOutFree | kernel/src/ram.rs:65-84 | over all runs whose callers unmap only what they own, exactly the sectors free at the start are ever handed out |
| Frames.HandedOutUsable | kernel/src/main.rs:155-166 | every page handed out after boot is at or above 0x4000000, and every page of a usable region from there on can be; over all runs all pages handed out lie in usable regions if and only if the memory map meets `StartsCovered`, a condition on its region starts |
| Frames.HandedOutInside | kernel/src/main.rs:155-166 | with usable regions on page boundaries every page handed out lies in a usable region |
| Frames.UnalignedRegion | kernel/src/main.rs:161-163 | a memory map that fails the condition: its first page handed out lies in no usable region |
| Paging.LinkFields | kernel/src/paging.rs:32-40 | a table entry is the table's address and the present, writable and user bits, nothing else |
| Paging.LeafFields | kernel/src/paging.rs:43-51 | a 2 MiB entry is its own address and 0x9F: present, writable, user, write-through, cache disabled, page |
| Paging.WalkIsIdentity | kernel/src/paging.rs:20-57 | the 4-level walk is the identity below 64 GiB, present, writable, user, write-through and uncached, and maps nothing else |
| Paging.PartialGrows | kernel/src/paging.rs:35-53 | a directory in a fresh frame leaves the tables built so far intact |
| Paging.AllocateFrame | kernel/src/ram.rs:65-84 | one frame, none of those allocated before; fails exactly when none is free |
| Paging.PhysicalMemory.FillDirectory | kernel/src/paging.rs:42-52 | the inner loop writes the directory of that GiB and no other frame |
| Paging.InitOsPaging | kernel/src/paging.rs:20-57 | the tables are built in 66 fresh frames; it fails exactly when fewer are free; frames in use are untouched |
| ElfLoader.Low | kernel/src/boot/exec.rs:64-70 | no loadable segment starts below it |
| ElfLoader.LowAttained | kernel/src/boot/exec.rs:67-68 | some loadable segment starts at it |
| ElfLoader.High | kernel/src/boot/exec.rs:65-73 | no loadable segment's end, summed in 64 bits, lies above it |
| ElfLoader.HighAttained | kernel/src/boot/exec.rs:69-71 | some loadable segment ends at it |
| ElfLoader.PlacedNext | kernel/src/boot/exec.rs:83-92 | loading one more segment puts its bytes in place, over those of earlier segments where they overlap |
| ElfLoader.ImageOfDisjoint | kernel/src/boot/exec.rs:83-92 | for segments inside the file that share no address, every file byte is at its distance from the lowest address and all other image bytes are zero |
| ElfLoader.LastDecides | kernel/src/boot/exec.rs:83-92 | where segments overlap, the last one that delivers a byte decides it |
| ElfLoader.MapGives | kernel/src/boot/exec.rs:78-79 | pages for the image are apart from every range in use |
| ElfLoader.ReadAt | kernel/src/boot/exec.rs:88-90 | seek and read deliver the file's bytes at that offset |
| ElfLoader.ReadHeader | kernel/src/boot/exec.rs:48-53 | accepted exactly if 64 bytes were read with the right magic and type |
| ElfLoader.Bounds | kernel/src/boot/exec.rs:64-73 | lowest address and highest end of the loadable segments |
| ElfLoader.LoadSegments | kernel/src/boot/exec.rs:83-93 | every byte of the image is the one the last segment delivering it has in the file, or zero |
| ElfLoader.LoadedOutcome | kernel/src/boot/exec.rs:76-98 | the image lies in its allocated pages, the entry keeps its distance from the lowest address, memory in use is kept |
| ElfLoader.LoadElf | kernel/src/boot/exec.rs:43-99 | the outcome for every file it can open: image, entry, kept memory, no descriptor left open |
| ElfLoader.CPathCuts | kernel/src/boot/mod.rs:200-214 | names are cut off after 127 bytes |
| ElfFile.SegmentReadBack | kernel/src/boot/exec.rs:22-31 | for all field values, the loader reads every field of a program header as it was written |
| ElfFile.HeaderReadBack | kernel/src/boot/exec.rs:5-20 | so for the file header: magic, type, entry, and where the program headers lie |
| ElfFile.LoadedAsWritten | kernel/src/boot/exec.rs:43-99 | in terms of the numbers written in the file: span of the image, distance of the entry, every file byte of every segment in its place, zeros elsewhere |
| RxRing.FillKeeps | kernel/src/net/e1000.rs:100-104 | the card's step keeps ready bits, queue order and the buffer returned last |
| RxRing.OldestReady | kernel/src/net/e1000.rs:160-165 | the slot after the tail is ready exactly when a packet waits, and holds the oldest |
| RxRing.ReceiveKeeps | kernel/src/net/e1000.rs:172-176 | the driver's step keeps ready bits and queue order |
| RxRing.Ring.constructor | kernel/src/net/e1000.rs:78-105 | set-up gives an empty, well-formed ring |
| RxRing.Ring.Receive | kernel/src/net/e1000.rs:156-182 | returns the oldest waiting packet; None exactly when none waits |
| RxRing.Ring.DeviceFill | kernel/src/net/e1000.rs:156-163 | the card stores a packet unless 31 wait, and never in the buffer returned last |
| RxRing.Ring.Interleave | kernel/src/net/e1000.rs:156-182 | every interleaving behaves as a bounded queue, and the packet received last is still in its buffer |
| RxRing.InOrder | kernel/src/net/e1000.rs:160-182 | accepted packets are those received followed by those waiting: none lost, repeated or reordered |
| Checksum.FoldIsResidue | kernel/src/net/ip.rs:42-44 | the fold is the residue modulo 65535, with 65535 for its nonzero multiples |
| Checksum.FoldLoop | kernel/src/net/icmp.rs:55-57 | the loop terminates, stays in 32 bits and folds |
| Checksum.ComplementVerifies | kernel/src/net/icmp.rs:28-30 | with the complement stored at an even offset the message folds to all ones |
| Checksum.SumWords | kernel/src/net/udp.rs:40-50 | the loop sums the words, an odd last byte as a high half, without overflow |
| Checksum.WordsAreNumber | kernel/src/net/icmp.rs:46-54 | modulo 65535 the sum of the words is the message read as one number, first byte highest |
| Checksum.OddIsPadded | kernel/src/net/icmp.rs:49-50 | a message of odd length is summed as if a zero byte followed |
| Checksum.CalcIcmpChecksum | kernel/src/net/icmp.rs:43-59 | complement of the folded word sum |
| Checksum.BuildEchoReply | kernel/src/net/icmp.rs:6-41 | which frames get a reply, its addresses swapped, its exact bytes, and that header and ICMP part verify |
| Checksum.ByteOrder | kernel/src/net/ip.rs:37-41 | sums in the two byte orders differ by a factor of 256 modulo 65535 |
| Checksum.CalcHeaderChecksum | kernel/src/net/ip.rs:36-46 | complement of the folded machine-order sum |
| Checksum.NewHeader | kernel/src/net/ip.rs:19-34 | every field of the finished header at its place, source before destination, and that it verifies |
| Checksum.HeaderVerifies | kernel/src/net/ip.rs:19-46 | every header's ten network-order words fold to all ones |
| Checksum.HeaderHasFields | kernel/src/net/ip.rs:20-33 | version and length, total length, time to live, protocol and both addresses as field reads of the finished header |
| Checksum.CalcUdpChecksum | kernel/src/net/udp.rs:23-61 | covers pseudo-header and data, and is never zero |
| Checksum.PseudoSum | kernel/src/net/udp.rs:32-38 | what is added up first is the sum of the words of the pseudo-header of RFC 768 |
| Checksum.UdpVerifies | kernel/src/net/udp.rs:56-60 | with the checksum stored the datagram verifies, also when the sum was all ones |
| Checksum.BuildUdpPacket | kernel/src/net/udp.rs:64-103 | frame layout and addresses, port and length fields lowest byte first, unchanged data, nonzero checksum, and that the datagram with the pseudo-header of RFC 768 in front verifies |
| Checksum.SwappedReads | kernel/src/net/udp.rs:11-20 | a field swapped twice reads back in network byte order if and only if its two bytes are equal |

## Left out

- AHCI commands, waits and timeouts: a sector transfer is one step that succeeds; reading past the end of the disk leaves the buffer as it is.
- The guards for a missing disk (`active_port == -1`): a disk is taken to be present.
- FileSystem.FileSystem.WriteFile: callers must not write to a file without a first cluster, because its cluster number 0 lies outside the data area; `Serve` stops in front of such a call.
- The second FAT copy: the code never updates it.
- FAT entries above the volume's last cluster: the disk is taken to hold every cluster the FAT can name, which the code does not check.
- The transfer buffer, callers' memory and the page-table frames are separate objects: nothing is said about the fixed page at 0x10000000 being apart from allocated frames.
- `sys_fstat`, `find_directory`, `list_directory`: they add no property beyond the ones stated.
- ElfLoader.LoadElf: covers accepted files whose program header table lies inside the file and whose segments have no more file bytes than memory and no address that wraps around; nothing is said about other files. A failed allocation, after which the kernel goes on with an address of all ones, is the result `Fault`.
- RxRing.Ring.DeviceFill: packets are at most 2048 bytes, the size of a receive buffer. Bit 15 of the receive control word, which a comment in `enable` calls the size extension, accepts broadcasts; the extension is bit 25 and stays off.
- Frames.Boot: region addresses and sizes are taken to stay below 2^64 in every sum, where the code would wrap around.
- The E1000 transmit ring: eight unsent packets make head equal tail, so there is no progress to prove.
- Checksum.BuildEchoReply: echo data beyond byte 62 of the message is zero in the reply, as the code has it.
- Checksum.BuildUdpPacket: datagrams of more than 65535 bytes, for which the length conversions wrap.
- Paging.InitOsPaging: physical addresses are taken to fit 52 bits.
- Bootloader, PCI, APIC, interrupt set-up, drawing, console, keyboard, timers and executors: hardware plumbing and user interface.
- The older copies under `kernel/boot` and `kernel/net`, which the kernel does not compile.
