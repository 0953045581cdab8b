# Verified model of the boot path: page tables, FAT12 driver, ELF loader

This project models the stateful core of the operating system's boot path and proves what it is for:

* the four-level x86-64 page-table managers of the stage-2 bootloader and of the kernel, with their bump allocator;
* the bootloader's FAT12 driver, from recognising a volume to following a path and reading a file;
* the ELF loader, which reads the kernel through the driver into memory that the bootloader's mapper has mapped;
* the handoff: the state the loader leaves behind is the state the kernel's `setup_paging` needs, and `Boot.Boot` runs the whole
  chain up to the kernel's first use of its mapper.

## How the model is built

**Paging.** Physical memory is a map from frame numbers to 512 words (`Memory`). `Paging.Walk` is the walk of section 4.5 of
the Intel SDM, Volume 3A, including large pages and their reserved bits; `Translate` is the resulting partial function from
36-bit page numbers to frames. A program (`Machines.Machine`) reaches its own tables only through that translation: each load
and store of a table entry has the precondition that the pointer translates to a frame of RAM, so the proofs show that no
access faults. `virt_to_phys`, which casts physical addresses to pointers, has the same precondition for each of its loads;
`SoftwareWalk.Software` gives its answer, or says that it faults. The invariant (`Spaces.Space.Valid`) says that the tables
form a tree (`Trees.Tree`: every table serves one region at one level), that they lie in a window of frames which the tables
map at a fixed offset (`KERNEL_OFFSET`, or zero in the bootloader), and that the unallocated heap holds no table. Words are
64-bit numbers; masks and shifts are written as quotients and remainders, and sums wrap at 2^64; `Masks` proves that these
quotients and remainders are the source's `&` and `|` with its constants, where And and Or are defined digit by digit in base 2.
What a run of the mapper does is said twice: as the flat map that the translation becomes, and as the entry, a number with all
its 64 bits, that the walk of each page ends in (`Runs.LeavesRun`, `LargeRuns.LeavesLarge`). Both are carried through the
loader, the handoff and the copy of the root pointer. `Rights` says what the entries of a walk let the processor do: entries
that point to tables never change, new ones have the bits of writable tables, and so every page of the kernel's image can be
written and executed, before and after the kernel's copy.

**FAT12.** A disk is a sequence of 512-byte sectors. `FatSpec` unpacks 12-bit entries, `FatFiles` gives the bytes
of a cluster chain, `FatDirectory` and `FatPaths` give directory search and path lookup, all as functions of the volume.
`FatDriver.Driver` is the driver as a class: handle table, one buffered sector per handle, FAT cache. Its invariant couples
each open handle to its chain: cluster, sector in cluster and buffer belong to the position while that is before the chain's
end. `FatRuns` replays whole runs of seeks and reads against a cursor per file, for every run in which no lookup is a
straddling hit of the cache (`FatSpec.Untroubled`). The same condition, on exactly the lookups they make, is asked of
directory searches, of `open` and of the loader, and each of them says where it leaves the cache. `FatRoot` describes what
the driver makes of the root directory, whose LBA it takes for a cluster number: `RootRead` and `RootFind` are `read` and
`FindFile` on the root's handle for every content of the disk, and `RootLimits` says which searches are right. What the
driver unpacks, parses and splits is tied to the other direction, in which things are written: `FatFormat` lays out boot sector
and directory entry field by field in little-endian digits (`Encoding`) and packs a table of 12-bit entries into bytes,
`FatNames` builds the 8.3 name from a base and an extension, and `FatComponents` joins components to a path. The driver's
methods state their results for every record, table, name or path written that way.

**ELF.** `ElfImages` parses headers, which `ElfFormat` writes field by field; `Loading` and `LoadPlans` say what one segment
and a whole image do to memory, and `ElfLoader.ReadElf` is the loader, driving a `Machine` and a `Driver`. `Stage2.LoadKernel`
opens the kernel's file by its path and loads it; `TableCounts` counts the tables that loading leaves in the higher half;
`Handoff.StartKernel` composes bootloader and kernel up to the return of the kernel's `setup_paging`, and `Boot.Boot` begins
behind the bootloader's `setup_paging`, loads the kernel from its path, starts it, and lets it copy the ACPI root pointer.

## Where the code departs from the obvious claim

The model keeps the code as it is. Where a natural claim is false, the exact condition is proved, and `Departures` holds an
input that shows the failure:

* A block of `kmalloc` lies inside the heap exactly when neither the rounding nor the sum in `next_offset` wraps
  (`Heap.InsideUnlessWrapped`; `Departures.HugeRequest`, `Departures.HugeAlignment`).
* `virt_to_phys`, on tables that are mapped to their own addresses, is right exactly on walks without a large page, in the first
  2 MiB of a 1 GiB page whose leaf has bits 12 to 29 clear, on a 2 MiB page whose data can be read at its physical address and,
  read as a page table, says the same, and under PS in the PML4, which is reserved, where its answer is 0, too
  (`SoftwareWalk.RightExactly`; `Departures.GigabyteOffset`). It faults exactly on a 2 MiB page whose data cannot be read there
  (`SoftwareWalk.FaultsExactly`; `Departures.LargePageFaults`), and always once `setup_paging` has returned
  (`KernelSetup.FaultsAfterwards`).
* The copy of `setup_paging` keeps translations and flags whatever bit 63 of the old entries is, but the kernel finds its
  tables afterwards exactly when no old entry that points to a table has bit 63 set (`KernelSetup.SetupPaging`,
  `KernelSetup.NewSpaceValid`), because a pointer rebuilt from an entry is that of its table exactly when bits 48 to 63 are clear
  (`Windows.PointerOfEntry`; `Departures.ExecuteDisabledPointer`).
* `parseRSDP` faults exactly when the structure crosses into a page that is not mapped (`Acpi.NoFaultExactly`;
  `Departures.RsdpFaults`), and restores the translation exactly when the page was unmapped before (`Acpi.Restores`, an instance
  of `Runs.MapThenUnmap`; `Departures.MappingLost`). `SmallKernel` is the kernel state of both inputs.
* `NextCluster` misreads an entry exactly on a cache hit whose entry straddles the end of the cache
  (`FatSpec.CacheExactlyTransparent`); that can only concern clusters 1706, 2389, 2730, 3413 and 3754 (`FatSpec.RiskyExactly`).
  Reading a file on the clusters 2, 1706 and 768 does it (`Departures.StraddleReached`).
* `seek` succeeds exactly for positions before the end of the cluster chain; when it fails there it has already moved the
  position (`FatDriver.Driver.Seek`; `Departures.SeekToTheEnd`).
* `open` hands a null directory to `FindFile` exactly when some component before the last is found as a directory that cannot be
  opened, for its first cluster or for want of a handle; it succeeds exactly when the path leads to an entry and a handle is free
  (`FatPaths.OpenExactly`; `Departures.NullDirectory`).
* At the end of the root directory's first sector `read` takes the root's LBA for a cluster number. So a search of the root by a
  fresh handle is right, whatever the rest of the disk holds, if and only if it is decided within 16 entries
  (`RootLimits.RootRightExactly`; `Departures.SeventeenthMissed`), and the handle can be searched again after `close`, which
  restores neither buffer nor sector counter, if and only if the search is decided within 15 (`RootLimits.RootAgainExactly`;
  `Departures.SecondSearchMisses`).
* The pages that the loader maps for a segment hold all its bytes exactly when the segment and its target begin at the same place
  in a page and the last page is reached (`Loading.CoveredExactly`; `Departures.HalfMapped`).
* The kernel computes the offset it runs at exactly when the lowest load address of the image is zero
  (`ElfImages.HandoffExactly`; `Departures.SecondPageKernel`).

## Model

| member | source | states |
|---|---|---|
| Machines.Machine.Kmalloc | src/kernel/memory.cpp:9-20 | the allocator in place is `Heap.Allocate`; on failure the heap is unchanged and the result is null |
| Heap.AllocateBlock | src/kernel/memory.cpp:9-20 | the block is the least aligned address from the top on, the call fails exactly when it does not fit, and a failed call changes nothing |
| Heap.RunBlock | src/kernel/memory.cpp:9-20 | in every run of calls each block is aligned, above the initial top and inside the heap |
| Heap.RunDisjoint | src/kernel/memory.cpp:9-20 | in every run all returned blocks are pairwise disjoint |
| Heap.InsideUnlessWrapped | src/kernel/memory.cpp:9-20 | for any heap at a positive address and any request that succeeds, the block is inside the heap if and only if neither the rounding nor the 64-bit sum wraps |
| Departures.HugeRequest | src/kernel/memory.cpp:12-18 | a request of almost 2^64 bytes succeeds and moves the top down |
| Departures.HugeAlignment | src/kernel/memory.cpp:11 | a request with a huge alignment succeeds with the null address |
| Heap.AllocateTable | src/kernel/memory.cpp:146-152 | a table request takes exactly the first free frame of the window and returns its linear address, or fails exactly when no frame is left |
| Heap.EnoughBytes | src/kernel/memory.cpp:9-20 | free bytes for `k` pages plus alignment slack are room for `k` tables |
| Words.IndicesOfAddress | src/kernel/memory.cpp:165-168 | the shifts and masks of the mapper pick the slots of the architectural walk of the page |
| Masks.IndexBits | src/kernel/memory.cpp:165-168 | And with `0x1FF` is the remainder that picks a slot |
| Masks.TestedBits | src/kernel/memory.cpp:147 | And with `PAGE_PRESENT` or `PAGE_PSE` is not zero exactly when the walk sees that bit |
| Masks.AddressBits | src/kernel/memory.cpp:41 | And with `ADDR_MASK` is the address of the frame that the walk goes on with |
| Masks.FlagBits | src/kernel/memory.cpp:42 | And with `FLAGS_MASK` is bit 63 and bits 0 to 11, as the model keeps them |
| Masks.FlagsJoined | src/kernel/memory.cpp:96-140 | Or of a frame address and such flags is the entry that the copy writes |
| Masks.PageBits | src/kernel/memory.cpp:162-163 | And with `~0xFFF` is the start of the page |
| Masks.TableBits | src/kernel/memory.cpp:174 | Or with `PAGE_PRESENT` and `PAGE_RW` is, as a number, the entry that the model writes |
| Masks.LargeBits | src/bootloader/stage2/memory.cpp:109 | the same with `PAGE_PSE` |
| Masks.AlignedBits | src/kernel/memory.cpp:11 | And with `~(align - 1)` rounds down to the alignment |
| Paging.WalkFrom | src/kernel/memory.cpp:160-176 | a walk continues from any table it passes |
| Trees.TranslateFrame | src/kernel/memory.cpp:153 | in a tree of tables writing one slot changes no walk outside the region of that slot |
| Updates.HangTable | src/kernel/memory.cpp:146-158 | hanging a cleared table into an empty slot keeps the tree and changes no translation |
| Updates.SetSlot | src/kernel/memory.cpp:174 | writing a leaf slot keeps the tree and replaces the outcome of exactly the pages of that slot |
| Windows.PointerOfEntry | src/kernel/memory.cpp:156 | the pointer rebuilt from any entry is the linear address of the frame in the entry if and only if bits 48 to 63 are clear |
| Departures.ExecuteDisabledPointer | src/kernel/memory.cpp:156 | an entry with bit 63 set is rebuilt into another address |
| Windows.NewEntry | src/kernel/memory.cpp:153 | the entry written for a new table names exactly the frame behind the pointer |
| Windows.SetKeeps | src/kernel/memory.cpp:174 | writing a slot that serves no page of the window keeps the program self-mapped |
| Spaces.CreateKeeps | src/kernel/memory.cpp:146-158 | creating a missing table keeps the invariant, changes no translation, takes one heap frame, and lowers the number of missing tables by one |
| Spaces.CreateLinks | src/kernel/memory.cpp:153 | creating a table writes one entry that points to a table, the address of the new frame with bits 0 and 1 set, and all other such entries stay |
| Spaces.WriteKeeps | src/kernel/memory.cpp:174 | writing a leaf outside the window keeps the invariant and replaces the walk of exactly the pages of the slot |
| Rights.StaysOpen | src/kernel/memory.cpp:146-176 | whatever the mapper does, tables whose entries for tables allow writing and execution stay so |
| Rights.LeafDecides | src/kernel/memory.cpp:160-176 | on such tables a mapped page can be written and executed if and only if its own entry allows it |
| Rights.RightsStay | src/kernel/memory.cpp:146-226 | a page that keeps its leaf keeps the flags of every entry on its walk, and so its rights |
| Machines.Machine.GetOrCreateTable | src/kernel/memory.cpp:146-158 | never faults, returns the address of the next table of the walk, changes no translation, takes exactly the first free heap frame for a missing table, and returns null exactly when a table is missing and the heap is full |
| Machines.Machine.GetTableIfExists | src/kernel/memory.cpp:194-199 | returns null exactly when the walk has its hole here, otherwise the address of the next table of the walk |
| Machines.Machine.MapPage | src/kernel/memory.cpp:165-174 | one round of `map_4k`: the page has the new leaf, every other page keeps its leaf or hole, the heap pays exactly for the missing tables, and apart from tables and the frames so taken memory is unchanged |
| Machines.Machine.MapBlock | src/bootloader/stage2/memory.cpp:102-109 | one round of `map_2m`: all pages of the block have the new 2 MiB leaf, every other page keeps its leaf or hole, and new tables are frames taken from the heap |
| Machines.Machine.UnmapPage | src/kernel/memory.cpp:209-223 | one round of `unmap_4k`: the page has no leaf, every other page keeps its leaf or hole, holes are skipped |
| Spaces.MissingNext | src/kernel/memory.cpp:160-172 | the next page of a run lacks at most one table per 2 MiB, 1 GiB and 512 GiB region it opens |
| Runs.RoomForNext | src/kernel/memory.cpp:160-172 | room for one table per distinct region touched suffices for every round |
| Runs.MapsOneMore | src/kernel/memory.cpp:160-176 | one more round of the loop is one more update of the flat page map |
| Runs.LeavesOneMore | src/kernel/memory.cpp:174 | one more round gives its page the entry of that round, all 64 bits of it, and every other page keeps its leaf |
| Runs.LeafBlock | src/kernel/memory.cpp:160-176 | without wrap-around page `v + i` ends in the 4 KiB leaf `(f + i) * 4096 + low`, and all other pages keep theirs |
| Ranges.RemappedBlock | src/kernel/memory.cpp:160-176 | without wrap-around the updates send page `v + i` to frame `f + i` and leave all other pages alone |
| KernelMemory.Map4K | src/kernel/memory.cpp:160-176 | for any count the translation becomes the flat map after `count` updates, and the walk of each page of the run ends in the 4 KiB leaf `f * 4096 + 3` of its last round, all other leaves kept; no entry that points to a table becomes another one, and new ones are `f * 4096 + 3`; the self-mapping invariant holds; no access faults and no table request fails; new tables are exactly frames taken from the heap and no other memory changes |
| KernelMemory.Unmap4K | src/kernel/memory.cpp:205-226 | the pages of the run become unmapped, every other page keeps its leaf, no frame is allocated, the invariant holds |
| Runs.MapThenUnmap | src/kernel/memory.cpp:160-226 | mapping a run and unmapping it restores the translation of every page, although new tables stay, if and only if no page of the run was mapped before |
| Runs.LeavesRestored | src/kernel/memory.cpp:160-226 | the same for the leaves with all their bits: they are restored if and only if no page of the run had one |
| KernelRuns.Replay | src/kernel/memory.cpp:160-226 | in every run of `map_4k` and `unmap_4k` the invariant holds throughout, the translation is the flat page map of the run, the walk of each page ends in exactly the entry of the last order that concerns it, and apart from tables and frames taken from the heap memory is unchanged |
| KernelRuns.TablesVisible | src/kernel/memory.cpp:146-199 | every table that any walk passes is seen at its physical address plus `KERNEL_OFFSET` |
| SoftwareWalk.VirtToPhys | src/kernel/memory.cpp:51-94 | load by load through the running tables: the answer is `Software`, and no load faults when that is an answer |
| SoftwareWalk.FollowsWalk | src/kernel/memory.cpp:51-94 | when the tables of the walk are mapped to their own addresses the answer depends on the outcome of the architectural walk alone |
| SoftwareWalk.AgreesWithoutLargePages | src/kernel/memory.cpp:51-94 | for every address and memory, and a PML4 whose tables are mapped to their own addresses, `virt_to_phys` is the architectural answer when the walk meets no large page |
| SoftwareWalk.RightExactly | src/kernel/memory.cpp:51-94 | under the same premise it returns the architectural answer if and only if the leaf of the walk, whatever its level, meets the condition stated for that level; on a 2 MiB page this includes that the data can be read at its physical address |
| SoftwareWalk.FaultsExactly | src/kernel/memory.cpp:84-90 | under the same premise a load faults if and only if the walk ends in a 2 MiB page whose data cannot be read at its physical address |
| Departures.GigabyteOffset | src/kernel/memory.cpp:67-82 | behind the first 2 MiB of a 1 GiB page the answer is wrong |
| Departures.LargePageFaults | src/kernel/memory.cpp:84-90 | on a 2 MiB page that is not mapped to its own address the call faults |
| SoftwareWalk.TablesInPlace | src/kernel/memory.cpp:64 | a program whose window is not shifted sees every table of every walk at its own address |
| SoftwareWalk.ReadsBackMapping | src/kernel/memory.cpp:51-94 | there it reads back the flat page map after a run of `map_4k` |
| DeepCopy.OldWalk | src/kernel/memory.cpp:96-144 | writing inside the kernel's window leaves every walk of the old tables unchanged during the copy |
| DeepCopy.TrailWalk | src/kernel/memory.cpp:105-129 | walks that pick up the same flags and leaf end in the same leaf |
| DeepCopy.NewTrail | src/kernel/memory.cpp:104-140 | what walks pick up below finished copies no longer changes while the copy goes on |
| KernelSetup.CopyRoot | src/kernel/memory.cpp:98-102 | the new PML4 is the old one with a cleared lower half, and nothing else in memory changes |
| KernelSetup.CopyTables | src/kernel/memory.cpp:104-140 | one level of the nested loops: all slots of the table are copied, every walk through it picks up the same flags (bit 63 included) and leaf, and one heap frame is used per table copied |
| KernelSetup.SetupPaging | src/kernel/memory.cpp:96-144 | afterwards every higher-half page translates as before with the same flags, bit 63 included, and the same leaf, 1 GiB and 2 MiB leaves included; every walk of a lower-half page ends in the PML4; the new tables are the PML4 and exactly one heap frame per table copied, and no other frame changes; the self-mapping invariant holds if and only if no old entry that points to a table has bit 63 set |
| KernelSetup.OldTablesSeen | src/kernel/memory.cpp:104-142 | while the copy is under way every table of the old PML4 is still mapped to its own address, so `virt_to_phys` does not fault |
| KernelSetup.FaultsAfterwards | src/kernel/memory.cpp:142 | once `setup_paging` has returned, `virt_to_phys` faults at its first load for every PML4 at a physical address and every address asked for |
| KernelSetup.NewSpaceValid | src/kernel/memory.cpp:96-144 | the finished copy hangs together, lies in the window and maps it linearly, and it meets the self-mapping invariant if and only if bit 63 is clear in all old entries that point to tables |
| KernelSetup.NoOldTable | src/kernel/memory.cpp:96-144 | whatever table a walk from the new PML4 passes is a frame of the window and no old table |
| KernelSetup.TrailsExecutable | src/kernel/memory.cpp:104-140 | old tables whose walks pick up the same flags as those of a proper tree have bit 63 clear |
| Acpi.ParseRsdp | src/kernel/dev/acpi/rsdp.cpp:4-8 | the copy holds the bytes in physical memory, also where the structure crosses into a page that is mapped; the page is unmapped afterwards; only tables change, and every page keeps its leaf if and only if the page of the structure had none |
| Acpi.InPlace | src/kernel/dev/acpi/rsdp.cpp:6 | of a structure in one page the copy holds the bytes at its own physical address, before and afterwards |
| Acpi.NoFaultExactly | src/kernel/dev/acpi/rsdp.cpp:5-6 | all bytes of the structure can be read if and only if it lies in one page or the next page happens to be mapped |
| Acpi.Restores | src/kernel/dev/acpi/rsdp.cpp:4-8 | the map and unmap sandwich restores the whole translation if and only if the page was unmapped before |
| Departures.RsdpFaults | src/kernel/dev/acpi/rsdp.cpp:5-6 | in a concrete kernel state a root pointer at page offset 0xFE0 can be mapped, but its last bytes cannot be read |
| Departures.MappingLost | src/kernel/dev/acpi/rsdp.cpp:4-8 | from the same state: a page that `map_4k` has mapped to itself is unmapped after `parseRSDP` |
| SmallKernel.SmallKernelValid | src/kernel/memory.cpp:96-144 | that state, with four tables and the kernel mapped at `KERNEL_BASE`, meets the kernel's invariant |
| BootMemory.IdentityTranslation | src/bootloader/stage2/memory.cpp:38-53 | the four static tables translate the first MiB to itself and nothing else |
| BootMemory.SetupPaging | src/bootloader/stage2/memory.cpp:38-62 | afterwards the translation is the identity on the first MiB and undefined elsewhere, the bootloader finds its tables through it, and every entry that points to a table is its address with bits 0 and 1 set |
| BootMemory.Map4K | src/bootloader/stage2/memory.cpp:79-95 | the translation becomes the flat map after `count` updates; the walk of each page of the run ends in the 4 KiB leaf of its last round, which for a page-aligned `phys` is `f * 4096 + 3`, and all other pages keep their leaf; no entry that points to a table becomes another one, and new ones are `f * 4096 + 3`; the invariant holds, and new tables are frames taken from the heap |
| BootMemory.Map2M | src/bootloader/stage2/memory.cpp:97-111 | the translation becomes the flat map after `count` 2 MiB updates; the walk of each page of the blocks ends in the 2 MiB leaf of its last round, which for a page-aligned `phys` is `f * 4096 + 0x83`, and all other pages keep their leaf; no entry that points to a table becomes another one, and new ones are `f * 4096 + 3`; the invariant holds, and new tables are frames taken from the heap |
| LargeRuns.LargeLeafBlock | src/bootloader/stage2/memory.cpp:97-111 | without wrap-around all pages of block `b + i` end in the 2 MiB leaf `(f + 512 i) * 4096 + low`, and all other pages keep theirs |
| BootMemory.MapKeepsHosting | src/bootloader/stage2/memory.cpp:68-95 | `map_4k` behind the first MiB keeps the identity map and every table inside it |
| BootMemory.MapLargeKeepsHosting | src/bootloader/stage2/memory.cpp:68-111 | `map_2m` behind the first MiB does so, too |
| LargeRuns.LargeIsSmall | src/bootloader/stage2/memory.cpp:79-111 | `n` aligned 2 MiB updates and `512 n` 4 KiB updates are the same flat map |
| LargeRuns.LargeEqualsSmall | src/bootloader/stage2/elf.cpp:73-77 | the branch taken in `readElf` does not change the translation of any page |
| FatLayout.PowerOfTwoMask | src/bootloader/stage2/dev/io/fs/fat/fat_common.cpp:36 | on 16-bit words the mask test accepts exactly the sixteen values that the model lists |
| FatFormat.PowersListed | src/bootloader/stage2/dev/io/fs/fat/fat_common.cpp:36 | these values are exactly the powers of two of a 16-bit field |
| FatFormat.BootParses | src/bootloader/stage2/dev/io/fs/fat/fat_common.cpp:10-45 | of every boot sector written field by field the driver reads back exactly the numbers of the parameter block, and the signature bytes are its last two |
| FatFormat.RootTakes | src/bootloader/stage2/dev/io/fs/fat/fat12.cpp:33-36 | the root directory takes exactly the sectors that its entries need: `n` sectors hold them and `n - 1` do not |
| FatFormat.MountedLaidOut | src/bootloader/stage2/dev/io/fs/fat/fat12.cpp:33-36 | in the numbers written into the boot sector: the root begins behind reserved area and FATs, and the data area exactly behind the root |
| FatFormat.DetectExactly | src/bootloader/stage2/dev/io/fs/fat/fat_common.cpp:3-58 | `detect` accepts a boot sector if and only if it is signed, both sizes are powers of two, the FAT size is not zero, the metadata fits the volume, and there are fewer than 4085 clusters |
| FatLayout.WrappedLayoutRejected | src/bootloader/stage2/dev/io/fs/fat/fat_common.cpp:34-53 | whenever the metadata exceeds the volume, the wrapped cluster count is too large and `detect` refuses |
| FatLayout.DetectedIsSane | src/bootloader/stage2/dev/io/fs/fat/fat_common.cpp:3-58 | an accepted volume has its metadata inside and the exact cluster count |
| FatLayout.MetadataApart | src/bootloader/stage2/dev/io/fs/fat/fat12.cpp:33-36 | reserved area, FATs and root directory of an accepted volume are pairwise disjoint |
| FatLayout.ClusterPlace | src/bootloader/stage2/dev/io/fs/fat/fat12.cpp:241-244 | `clusterToLba` does not wrap and lands behind the metadata and inside the volume |
| FatLayout.ClusterApart | src/bootloader/stage2/dev/io/fs/fat/fat12.cpp:33-36 | no cluster of an accepted volume touches its metadata |
| FatLayout.ClustersApart | src/bootloader/stage2/dev/io/fs/fat/fat12.cpp:241-244 | different clusters of an accepted volume do not overlap |
| FatPaths.AcceptedVolume | src/bootloader/stage2/dev/io/fs/fat/fat_common.cpp:3-58 | a volume that `detect` accepts, with 512-byte sectors and room for a cache refill, meets the driver's preconditions, and its clusters are readable |
| RootLimits.AcceptedLayout | src/bootloader/stage2/dev/io/fs/fat/fat_common.cpp:3-58 | such a volume, with a reserved sector, data behind the root and FATs and disk large enough for the root's own entry, has the layout that the exact conditions on root searches assume |
| FatSpec.CacheTransparent | src/bootloader/stage2/dev/io/fs/fat/fat12.cpp:162-188 | for every cache position a lookup that is no straddling hit gives the packed 12-bit entry |
| FatSpec.CacheExactlyTransparent | src/bootloader/stage2/dev/io/fs/fat/fat12.cpp:162-188 | a lookup is right for every content of the FAT if and only if it is no straddling hit |
| FatSpec.RiskyExactly | src/bootloader/stage2/dev/io/fs/fat/fat12.cpp:164-180 | exactly five clusters have a cache position that misreads them |
| FatSpec.SmallFatNeverRisky | src/bootloader/stage2/dev/io/fs/fat/fat12.cpp:164-180 | with a FAT of at most five sectors no entry can be misread |
| FatSpec.CalmIsUntroubled | src/bootloader/stage2/dev/io/fs/fat/fat12.cpp:162-188 | looking up clusters other than the five is untroubled wherever the cache is |
| Departures.StraddleReached | src/bootloader/stage2/dev/io/fs/fat/fat12.cpp:162-188 | on a disk of 1713 sectors with a FAT of six: reading the chain 2, 1706, 768 looks 1706 up in a cache that it straddles, gets 0 instead of 768, and goes on with a sector of the FAT |
| FatDriver.Driver.NextCluster | src/bootloader/stage2/dev/io/fs/fat/fat12.cpp:162-188 | cache position and result are the specified lookup, and the cache stays a copy of five FAT sectors; on a volume whose FAT is the packing of a sequence of 12-bit entries the result is the entry, sign-extended from 0xFF8 on, unless the lookup is a straddling hit |
| FatFormat.LookupGives | src/bootloader/stage2/dev/io/fs/fat/fat12.cpp:162-188 | of a table packed pair by pair, `a + 4096 * b` in three little-endian bytes, a lookup that is no straddling hit gives the entry that was packed |
| FatFormat.ChainsLinked | src/bootloader/stage2/dev/io/fs/fat/fat12.cpp:162-188 | a chain of the driver is exactly a sequence of data clusters whose packed entries link each to the next and end the last |
| FatFormat.ContentOnDisk | src/bootloader/stage2/dev/io/fs/fat/fat12.cpp:241-300 | the content that reads and seeks are stated by is the sectors of the clusters on disk, one cluster after another |
| FatDriver.Driver.ReadFat | src/bootloader/stage2/dev/io/fs/fat/fat12.cpp:190-193 | the cache becomes a copy of the five FAT sectors from the given one |
| FatFiles.ChainInjective | src/bootloader/stage2/dev/io/fs/fat/fat12.cpp:335-340 | a chain that ends visits no cluster twice |
| FatFiles.ChainBounded | src/bootloader/stage2/dev/io/fs/fat/fat12.cpp:335-340 | so following it terminates within 4086 steps and 32-bit positions suffice |
| FatCursors.ChunkCrosses | src/bootloader/stage2/dev/io/fs/fat/fat12.cpp:262-296 | a round of `read` that uses up a sector keeps cursor and data coupled to the file |
| FatCursors.ChunkEnds | src/bootloader/stage2/dev/io/fs/fat/fat12.cpp:283-288 | reaching the end of the chain stops at exactly the right byte and records the size |
| FatDriver.Driver.Read | src/bootloader/stage2/dev/io/fs/fat/fat12.cpp:246-300 | on files and subdirectories: exactly the bytes from the position up to `min(position + n, size)` of the concatenated chain, whenever no lookup on the way is a straddling hit; on the root directory: `FatRoot.RootRead`, also where it leaves the first sector; position and cache move exactly so, the invariant holds and no other handle changes |
| FatDriver.Driver.Seek | src/bootloader/stage2/dev/io/fs/fat/fat12.cpp:314-347 | on files and inside subdirectories: fails without effect behind the size; otherwise moves the position, keeps the coupling, and succeeds exactly before the end of the chain |
| Departures.SeekToTheEnd | src/bootloader/stage2/dev/io/fs/fat/fat12.cpp:327-338 | seeking to the end of a file that fills its cluster fails but moves the position |
| FatDriver.Driver.Close | src/bootloader/stage2/dev/io/fs/fat/fat12.cpp:302-312 | closes exactly this handle; the root directory goes back to position 0 and its first cluster, and keeps buffer and sector counter |
| FatDriver.Driver.Initialize | src/bootloader/stage2/dev/io/fs/fat/fat12.cpp:14-57 | succeeds exactly for FAT12 fields whose root lies on the disk, and then all handles are closed, the root's handle is fresh and the invariant holds; for every boot sector written field by field: succeeds exactly when the 16-bit sector count and the FAT size are not zero and reserved area and FATs end before the disk does, and then the data area begins exactly behind the root directory |
| FatRuns.Replay | src/bootloader/stage2/dev/io/fs/fat/fat12.cpp:246-347 | in every run of seeks and reads on open files in which no lookup is a straddling hit the driver answers like one cursor per file |
| FatRuns.CalmRun | src/bootloader/stage2/dev/io/fs/fat/fat12.cpp:162-188 | every run over files without the five clusters is such a run |
| FatRuns.Isolated | src/bootloader/stage2/dev/io/fs/fat/fat12.cpp:246-347 | what a handle sees of any interleaved run is the run of its own operations alone |
| FatRuns.PiecesJoin | src/bootloader/stage2/dev/io/fs/fat/fat12.cpp:246-300 | reads in pieces of any sizes join to the file from the position on, without gaps |
| FatDirectory.FindFirst | src/bootloader/stage2/dev/io/fs/fat/fat12.cpp:142-151 | the first entry of that name before the terminator is found |
| FatDirectory.FoundFirst | src/bootloader/stage2/dev/io/fs/fat/fat12.cpp:142-151 | an entry that is found is the first of its name and all entries before it are in use |
| FatDirectory.FindIsFirst | src/bootloader/stage2/dev/io/fs/fat/fat12.cpp:142-151 | what the search returns is the entry with the 11 bytes before which all entries are in use and have others, and nothing if and only if there is none |
| FatNames.ShortNameExactly | src/bootloader/stage2/dev/io/fs/fat/fat12.cpp:126-140 | the 11 bytes looked up are exactly those of the 8.3 form: at most eight bytes before the first dot and at most three behind it, in capitals, each padded with spaces; a dot behind eleven bytes is not seen |
| FatRoot.RootSearch | src/bootloader/stage2/dev/io/fs/fat/fat12.cpp:121-160 | a search by a fresh root handle that is decided within 16 entries, or in a directory of at most 16, equals the search over the whole root directory |
| FatRoot.RootStays | src/bootloader/stage2/dev/io/fs/fat/fat12.cpp:121-160 | a search that is decided within 15 entries leaves cache and, after `close`, handle as they were |
| RootLimits.RootRightExactly | src/bootloader/stage2/dev/io/fs/fat/fat12.cpp:262-296 | over all contents of the rest of the disk such a search is right if and only if it is decided within 16 entries |
| RootLimits.RootAgainExactly | src/bootloader/stage2/dev/io/fs/fat/fat12.cpp:302-307 | over all contents of the rest of the disk the handle is fresh again after the search and `close` if and only if the search is decided within 15 entries |
| RootLimits.LaterSearchesMiss | src/bootloader/stage2/dev/io/fs/fat/fat12.cpp:302-307 | otherwise there is a disk on which no later search finds anything, whatever it looks for |
| Departures.SeventeenthMissed | src/bootloader/stage2/dev/io/fs/fat/fat12.cpp:262-296 | on a floppy disk with one-sector clusters KERNEL.ELF is the seventeenth entry, and the search for it finds nothing |
| Departures.SecondSearchMisses | src/bootloader/stage2/dev/io/fs/fat/fat12.cpp:302-307 | on another one the first entry is found, but no more after a search for KERNEL.ELF and `close` |
| FatDriver.Driver.ReadEntry | src/bootloader/stage2/dev/io/fs/fat/fat12.cpp:154-160 | gives the next entry of a subdirectory, or nothing at the terminator or the end of the chain; of the root directory what the next 32 bytes read hold |
| FatDriver.Driver.FindFile | src/bootloader/stage2/dev/io/fs/fat/fat12.cpp:121-152 | terminates; in a subdirectory it returns the first entry whose 11 bytes are the 8.3 form of the name, although the size is unknown until the end, whenever no lookup up to that entry is a straddling hit; on the root directory it is `FatRoot.RootFind` for those 11 bytes, without a premise on what the directory holds |
| FatDriver.Driver.OpenEntry | src/bootloader/stage2/dev/io/fs/fat/fat12.cpp:195-239 | the first free handle gets a cursor at the start of the file; without a free handle nothing changes; an unusable first cluster leaves the handle closed; for every entry written field by field the handle has its kind, size and first cluster |
| FatFormat.EntryParses | src/bootloader/stage2/dev/io/fs/fat/fat12.cpp:213-220 | of every directory entry written field by field the driver reads back name, kind, first cluster and size |
| FatDriver.Driver.OpenComponent | src/bootloader/stage2/dev/io/fs/fat/fat12.cpp:74-113 | one round of `open`: the directory is closed, its entry opened, all other open handles are untouched, and the cache is where the search leaves it |
| FatDriver.Driver.Open | src/bootloader/stage2/dev/io/fs/fat/fat12.cpp:63-119 | for paths of any depth whose lookups are no straddling hits and whose first component is decided within 16 entries of the root: the outcome is exactly that of the pure path lookup with the free handles at the call, also where a null directory is used; for components joined by slashes it is the lookup of their 8.3 forms one after another; on success the handle is at the start of the entry found; the root's handle is left as its search and `close` leave it, and the cache at the place computed from the lookups |
| FatComponents.JoinedSplits | src/bootloader/stage2/dev/io/fs/fat/fat12.cpp:72-90 | components joined by slashes are split into exactly these components, the first one first |
| FatComponents.RelativeOf | src/bootloader/stage2/dev/io/fs/fat/fat12.cpp:67-68 | with or without a leading slash |
| FatComponents.ResolvesAlong | src/bootloader/stage2/dev/io/fs/fat/fat12.cpp:72-117 | the pure path lookup of such a path is the lookup of the 8.3 forms, one directory after the other |
| FatPaths.OpenExactly | src/bootloader/stage2/dev/io/fs/fat/fat12.cpp:63-119 | a null directory is used if and only if some component before the last is a directory that cannot be opened, and `open` succeeds if and only if the path leads to an entry and a handle is free |
| FatPaths.StuckIsNull | src/bootloader/stage2/dev/io/fs/fat/fat12.cpp:72-115 | such a component makes the lookup go on with a null directory, however deep it is |
| FatPaths.NullIsStuck | src/bootloader/stage2/dev/io/fs/fat/fat12.cpp:72-115 | and only such a component does |
| Departures.NullDirectory | src/bootloader/stage2/dev/io/fs/fat/fat12.cpp:105 | with all handles open the path `DIR/X` uses a null directory |
| FatPaths.HandlesConserved | src/bootloader/stage2/dev/io/fs/fat/fat12.cpp:63-119 | success leaves exactly one more open handle, failure the same ones, and no other open handle changes |
| ByteAccess.PhysicalWritten | src/bootloader/stage2/elf.cpp:81 | storing a byte into a word of memory changes that byte and no other |
| Loading.CoveredExactly | src/bootloader/stage2/elf.cpp:73-77 | the mapped pages hold every byte of the segment at the place of its target if and only if both begin at the same place in a page and the page count reaches the end |
| Departures.HalfMapped | src/bootloader/stage2/elf.cpp:76 | a one-page segment that begins in the middle of a page is half mapped |
| Loading.SmallMapped | src/bootloader/stage2/elf.cpp:73-77 | a segment mapped with 4 KiB pages has its pages mapped in order to its frames, each by the leaf `f * 4096 + 3` if its target is page-aligned, and nothing else changed |
| Loading.LargeMapped | src/bootloader/stage2/elf.cpp:73-77 | a segment mapped with 2 MiB pages meets the same statement with 2 MiB leaves `f * 4096 + 0x83` |
| ElfLoader.ReadAt | src/bootloader/stage2/elf.cpp:80-81 | seek and read with ignored results and 32-bit arguments return exactly the asked bytes of the file, as far as it has them, whenever none of the lookups of this access is a straddling hit |
| ElfLoader.ClearAfterSetup | src/bootloader/stage2/Main.cpp:50-94 | right after `setup_paging` no large page and no window page is in the way of any segment behind the first MiB |
| ElfLoader.LoadSegment | src/bootloader/stage2/elf.cpp:58-86 | the segment is mapped, holds its file bytes followed by zeros, and no frame changes but those of the segment, tables, and heap frames taken for tables; asked of the file is only that none of the segment's lookups is a straddling hit |
| LoadPlans.SeenStays | src/bootloader/stage2/elf.cpp:53-87 | loading a disjoint segment leaves an earlier one as it was |
| LoadPlans.LoadedOneMore | src/bootloader/stage2/elf.cpp:53-87 | one more segment keeps the earlier ones in place and the later ones loadable |
| LoadPlans.ImageReadsBack | src/bootloader/stage2/elf.cpp:53-87 | every byte of every loaded segment reads back through the final page tables as its file byte or zero, lies at its load address, and is mapped by exactly the leaf that the loader wrote for it |
| ImageRights.SegmentGranted | src/bootloader/stage2/elf.cpp:73-77 | every page of every loaded segment can be written and executed |
| ElfFormat.PhdrParses | src/bootloader/stage2/elf.cpp:21-30 | of every `Elf64_Phdr` written field by field the loader reads back type, offset, addresses and both sizes |
| ElfFormat.EhdrParses | src/bootloader/stage2/elf.cpp:4-19 | of every `Elf64_Ehdr` it reads back entry point and the place, size and number of program headers |
| ElfFormat.FieldsTranslated | src/bootloader/stage2/elf.cpp:53-92 | what the loader leaves behind, in the fields as written into the file: every byte from `p_vaddr` to `p_vaddr + p_memsz` reads back as its file byte or zero, lies at its load address, and its page has the leaf for that address, all 64 bits of it; if the tables allow it, the page can be written and executed; pages of no segment keep their leaf; the entry point is `e_entry`, and the base is the least load address |
| ElfLoader.ReadElf | src/bootloader/stage2/elf.cpp:38-93 | a file whose header lacks the magic, however short it is, changes nothing; otherwise all segments are in place, the physical base is the running minimum, and the cache is where the loader's lookups leave it; for every file laid out by the fields of its headers `ElfFormat.LoadedByFields` says the same of these fields; asked of the file is only that none of these lookups is a straddling hit |
| Stage2.LoadKernel | src/bootloader/stage2/Main.cpp:68-96 | the file that the path lookup leads to is the one whose image is in place afterwards, also in terms of the fields of its headers, with the cache where `open` and the loader leave it; without the file nothing is loaded |
| Stage2.OpenedFileIs | src/bootloader/stage2/Main.cpp:68-94 | the handle that `open` returns stands for the content that the directory lists |
| ElfImages.LowestIsLeast | src/bootloader/stage2/elf.cpp:64-65 | the running minimum is below every load address |
| ElfImages.LowestIsReached | src/bootloader/stage2/elf.cpp:51-66 | and it is the load address of some segment |
| ElfImages.HandoffExactly | src/kernel/kernel.cpp:43-44 | the offset computed in `main` is the one the loader has installed if and only if the lowest load address is zero |
| Departures.SecondPageKernel | src/kernel/kernel.cpp:43-44 | an image whose lowest load address is one page gets another offset |
| Handoff.KernelCanStart | src/kernel/kernel.cpp:43-44 | after `readElf` of a kernel image the memory, tables and offset meet what the kernel's `setup_paging` asks of them, for any of its page-aligned segments with 4 KiB pages |
| Handoff.StartKernel | src/kernel/kernel.cpp:38-44 | with heap and PML4 laid out in such a segment and heap room for the tables that loading needed, the kernel afterwards meets its self-mapping invariant and reads back every byte of the image outside the frames of its new tables and can write and execute every page of it |
| Handoff.IdentityIsLow | src/bootloader/stage2/memory.cpp:38-62 | the tables of the bootloader's `setup_paging` serve no page of the higher half |
| Boot.Boot | src/bootloader/stage2/Main.cpp:68-100 | from the state behind the bootloader's `setup_paging` on: without the kernel's file nothing is loaded; otherwise the kernel ends on its own tables, meets its invariant, reads back its image outside the frames of its tables, byte by byte with the leaf that maps it and in terms of the fields of its headers, can write and execute every page of it, holds a copy of the root pointer, and has nothing mapped in the lower half |
| Boot.RunKernel | src/kernel/kernel.cpp:38-46 | the kernel's part of that, from any state that loading a kernel image leaves |
| Boot.ReadyForPointer | src/kernel/kernel.cpp:46 | heap room for three more tables is enough for `parseRSDP`, because the lower half is unmapped |
| Boot.StillKept | src/kernel/dev/acpi/rsdp.cpp:4-8 | the image still reads back after the map and unmap sandwich |
| Boot.StillGranted | src/kernel/dev/acpi/rsdp.cpp:4-8 | and so does mapping and unmapping the page of the root pointer |
| Handoff.TablesToCopy | src/kernel/memory.cpp:104-140 | the kernel copies at most as many tables as loading the image needed |
| TableCounts.CountedTables | src/kernel/memory.cpp:104-140 | the tables counted by walking the old tree are at most its different tables, so no table is copied twice |
| TableCounts.UpperTables | src/kernel/memory.cpp:104-140 | tables of the higher half that mapping created are at most the heap frames it took |
| Handoff.TablesExecutable | src/bootloader/stage2/memory.cpp:68-77 | no table entry of the bootloader has bit 63 set |
| Handoff.ByteSurvives | src/kernel/kernel.cpp:43-44 | a byte of the image that lies in no frame of the new tables is read as before |
| Handoff.HighLeaf | src/kernel/memory.cpp:104-140 | every page of the kernel's half ends in the same leaf, bit for bit, as under the bootloader's tables |
| Handoff.CopyGranted | src/kernel/memory.cpp:104-140 | the kernel's copy of the tables keeps the right to write and execute every page of the image |
| Handoff.TablesAreOld | src/bootloader/stage2/memory.cpp:38-111 | all bootloader tables are identity-mapped, outside the kernel's window and free of high address bits |

## Left out

- Kernel `map_2m` and `unmap_2m`: they step by 4 KiB where the name promises 2 MiB, so a count above one has no useful meaning.
- Access rights: in the model an access faults for want of a translation only; `Rights` states separately what the entries allow. CR0.WP and EFER.NXE are not modelled.
- TLB: translations are those in memory; `unmap_4k` flushes `virt` instead of `va` for counts above one.
- KernelMemory.Unmap4K: says nothing about stale TLB entries, for the reason above.
- KernelMemory.Map4K: requires heap room and no large page on the way, because the code tests neither the returned null nor the PS bit.
- KernelSetup.SetupPaging: requires that entries pointing to tables have bits 48 to 62 clear, because the copy drops them. `Handoff.TablesAreOld` shows that all tables of the bootloader meet this, and `Handoff.TablesExecutable` that they have bit 63 clear, too.
- KernelSetup.CopyTables: the three nested loops are one loop per level, called recursively; the levels differ in nothing else.
- BootMemory.SetupPaging: the tables are installed in one step; the assembly identity map under which they are built is not part of this model.
- FatDriver.Driver.Read: requires chains without damaged links, and promises nothing after a straddling hit.
- FatDriver.Driver.Seek: on a directory the position must lie inside it, because the code checks no bound there; seeking on the root directory's handle, which no caller does, is not modelled.
- FatDriver.Driver.FindFile: on the root directory the disk must hold the FAT sectors that the lookups of the refill fetch (`FatRoot.RefillsFit`).
- RootLimits.RootRightExactly: the volume has the usual order of areas, which `RootLimits.AcceptedLayout` derives from what `detect` accepts, and the name does not begin with byte 0.
- FatDriver.Driver.Open: each path component fits the 256-byte name buffer and does not begin with byte 0xE5 (it would name a deleted entry, which the code does not skip), the root's handle is fresh, and the first component is decided within 16 entries; `RootLimits` shows that without either the root search can miss what is there.
- Disk read failures: in-range reads succeed; the driver drops or ignores most read errors.
- ElfLoader.ReadElf: driver and loader state are separate objects, so the model does not capture segments loaded over the bootloader's own buffers; no lookup is a straddling hit, and the segments fit their pages and are disjoint, with targets outside the first MiB.
- Stage2.LoadKernel: the choice of the load address from the BIOS memory map is a parameter, and the path does not lead through a null directory.
- Handoff.StartKernel: where the linker script puts heap and PML4 is a parameter; the jump to the entry point is not modelled.
- ElfImages.HandoffExactly: `main` itself is a copy of two structures; only its offset computation is modelled.
- SoftwareWalk.VirtToPhys: the PML4 and the tables are read as frames of RAM; device memory is not modelled.
- Boot.Boot: the driver is mounted and the memory map has been searched before; a file without the ELF magic, for which the code jumps to address 0, is not followed.
- Acpi.ParseRsdp: requires that the structure can be read (`Acpi.NoFaultExactly` says when) and lies outside the kernel's window.
- ATA port I/O, text output, `operator new`, linker scripts and assembly start-up code are not modelled.
