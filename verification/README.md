# A Dafny model of the Wittche kernel

Wittche is a small 32-bit kernel. This project models the four of its components that keep
invariants over state, and proves what they keep over every run:

- **WitFS on the RAM disk.** The calls work on disk blocks, two cached bit maps, an inode table and
  a flat root directory of 160 entries. They are shown to refine a machine that knows only a map from
  names to bytes and a table of descriptors (`WitFsRuns.FormatAndRun`). The refinement rests on one
  invariant of the decoded volume (`Volumes.Consistent`) and on six elementary changes that keep it.
- **The kernel heap.** Headers chained through the heap's bytes, split and merged in place among the
  payloads, are shown to be a tiling of the 4 MB of the heap that is determined by the allocated blocks
  alone. That is what makes a free undo an allocation, and an emptied heap equal to the initial one.
- **Paging over the physical page bit map.** Two-level tables live in physical frames (32-bit paging,
  section 4.3 of the Intel SDM, volume 3A). Every frame in use is accounted to exactly one owner, so
  that freeing an address space returns the page allocator exactly to what it was.
- **Processes.** A state machine of create, kill, sleep, wake, tick, schedule, send and receive, with
  the exact choice of the scheduler, the exact end of a sleep, and first-in-first-out messages.

Each public call is one step, and timer ticks, the time, the outcome of allocations and the initial
contents of memory are inputs. A precondition that narrows a call is one the source does not check
either; these are listed at the end, with what is proved beyond them.

## How the files fit together

| files | contents |
|---|---|
| `Words.dfy` | 32-bit words, bytes, bit maps, C strings, sizes of sets |
| `Layout.dfy`, `RamDisk.dfy` | the disk: byte layout of superblock, inodes and directory entries; block reads and writes |
| `Volume.dfy`, `VolumeBounds.dfy`, `VolumeSteps.dfy`, `FileSteps.dfy` | the decoded volume, its invariant, its elementary and compound changes |
| `WitFs.dfy`, `WitFsRuns.dfy`, `WitFsTheorems.dfy` | the file system calls; runs of them against the map from names to bytes; consequences |
| `HeapBlocks.dfy`, `HeapRuns.dfy`, `HeapMemory.dfy`, `KernelHeap.dfy` | the heap as a list of blocks; runs; its bytes, headers and payloads alike; the calls on them |
| `Pmm.dfy`, `PageTables.dfy`, `PageOwnership.dfy`, `Paging.dfy`, `PagingRuns.dfy` | the page bit map; walks; ownership of frames; the paging calls; runs |
| `Processes.dfy`, `ProcessRuns.dfy`, `Sleeping.dfy`, `Scheduling.dfy`, `Messages.dfy`, `ProcessManager.dfy` | processes as values; runs; how long a sleep lasts; the scheduler's choice; messages; the calls in place |

Some large facts are *folded*: stated under a quantifier over `Words.Unfold`, which is always true, so
that a proof carries them as one fact and opens them by name (`ConsistentParts`, `TablesAre`, `InvIs`).

## Where the code and its comments disagree

The model follows the code.

- `fs_inode_t` is commented as 64 bytes, eight to a block; its fields add up to 80, six to a block. The
  table therefore holds 384 of the 512 inode numbers. Numbers 384 to 511 would lie in data blocks
  (`Layout.InodeWriteTarget`); no run reaches them (`WitFsTheorems.NewInodeNumber`).
- The scheduler's comment speaks of round robin among equal priorities. With three or more ready
  processes of the top priority, only the first and the last of them are ever chosen as long as nothing
  happens but ticks and yields and nobody wakes (`Scheduling.TurnInRunIff`, `Scheduling.FairIff`, and
  `Scheduling.MiddleStarves` for three just created).
- A file name of more than 27 characters is created under its first 27 and then cannot be found
  (`WitFsTheorems.CreatedFoundIff`, `WitFsTheorems.LongNameLost`), and the volume stays consistent
  exactly when the shortened name is new (`VolumeBounds.EnterSoundIff`, `WitFs.FileSystem.FsCreate`,
  `WitFsTheorems.LongNameCollides`).
- `fs_read` limits the size with a 32-bit sum. If the sum wraps, the read goes on to the end of the
  last block (`VolumeSteps.ReadCountExact`, `VolumeSteps.ReadPastEnd`).
- A `kmalloc` request above 0xFFFFFFEC wraps to the smallest block (`HeapBlocks.TotalHolds`,
  `HeapBlocks.TotalWraps`). The block list stays in order even then.
- A sleep of ms > 0 lasts as asked if and only if its end does not wrap, or it starts at the last tick
  before the wrap and lasts more than one tick; a sleep of 0 ms ends at the next tick if and only if it
  starts neither at tick 0 nor at the last tick before the wrap (`Sleeping.SleepLastsIff`). Otherwise, one
  whose end is past 2^32 is over at the next tick (`Sleeping.SleepWraps`); one whose end is tick 0 or 2^32
  has the wake time 0, and no tick ends it (`Sleeping.SleepForever`, `Sleeping.ZeroSleepAtTickZero`), but a
  message does (`Sleeping.MessageEndsIt`); and a sleep of 0 ms at the last tick is blocked until the ticks
  have gone all the way round (`Sleeping.ZeroSleepAtLastTick`).
- The shell passes names of any length to `fs_create`, lets `rm` unlink the root, and lets `write` open the
  root for writing. Unlinking the root leaves no file system, and unlinking an open file leaves a
  consistent volume but a descriptor on a free inode: `WitFs.FileSystem.FsUnlink` says exactly when the
  file system stays valid. Writing to the root can make the volume inconsistent
  (`WitFsTheorems.RootWriteBreaks`, `WitFsTheorems.RootWriteExample`).
- `krealloc` to a size above 0xFFFFFFEC copies beyond the new block if and only if the old block is larger
  than the block such a request gets (`HeapRuns.OverrunIff`, `HeapRuns.OverrunExample`).
- `paging_map_user_code` maps no page at all for sizes above 0xFFFFF000 (`Paging.PagesOfCovers`,
  `Paging.PagesOfWraps`).
- The page allocator reserves only the first 2 MB, where the heap's 4 MB start: its first page is the heap's
  first page (`Pmm.AllocOverHeap`).
- `paging_map_user_code` makes pages writable and open to user mode in their table entries, but
  `paging_map_page` gives no directory entry the user flag. The processor asks for it in both (section 4.6 of
  the Intel SDM, volume 3A), so user mode reaches no page (`PageTables.NoUserPages`, `Paging.RunFlags`).
- Demand paging loses the frame it took when the page also needs a table and no frame is left for one
  (`Paging.AddressSpaces.TakeAndMap` says exactly when, `Paging.LastFrameLost` gives a case). Unmapping a page
  gives its frame back to nobody (`PageOwnership.UnmappedAccounted`).

## Model

| member | source | states |
|---|---|---|
| `Words.TestSetBit` | kernel/fs.c:207-217 | setting a bit of a byte bit map makes that bit set and leaves every other bit as it was |
| `Words.TestClearBit` | kernel/fs.c:211-217 | clearing a bit makes that bit clear and leaves every other bit as it was |
| `Words.BitmapWorth` | kernel/fs.c:207-217 | setting a clear bit n adds 2^(n % 8) to byte n / 8 and changes no other byte; clearing a set one takes it away |
| `Words.LowByteFirst` | include/fs.h:70-82 | a word is four bytes with the lowest first, written and read |
| `Layout.InodeRoundTrip` | include/fs.h:70-82 | the twenty words of an inode read back as the same inode |
| `Layout.SuperRoundTrip` | include/fs.h:45-64 | a superblock written to a block reads back as the same superblock |
| `Layout.ReadBackInode` | kernel/fs.c:222-263 | after writing inode n, reading n gives it back and reading any other number gives what it gave |
| `Layout.InodeOnDisk` | include/fs.h:70-82 | the six fields and ten block pointers of inode n stand word by word from byte 80 * (n % 6) of block 3 + n / 6 on |
| `Layout.EntryAfterPut` | kernel/fs.c:388-396 | an entry put into a directory block reads back with its inode number and its name cut to 27 characters; the other fifteen entries do not change |
| `Layout.EntryOnDisk` | kernel/fs.c:388-396 | entry i is a word at byte 32 * i, at most 27 characters of the name behind it, and zeros; no byte outside its 32 changes |
| `Layout.EntryAfterClear` | kernel/fs.c:431-434 | a cleared entry is unused and the other fifteen do not change |
| `Layout.InodeWriteTarget` | kernel/fs.c:243-263 | an inode write leaves all data blocks alone if and only if its number is below 384; above, it rewrites part of a named data block |
| `RamDisks.RamDisk.Init` | kernel/ramdisk.c:14-46 | all 2048 blocks are zero, or the disk stays uninitialised exactly when its memory could not be allocated |
| `RamDisks.RamDisk.ReadBlock` | kernel/ramdisk.c:54-77 | returns the block's bytes, and -1 exactly when uninitialised or out of range |
| `RamDisks.RamDisk.WriteBlock` | kernel/ramdisk.c:85-108 | replaces exactly that block of the byte buffer; on -1 nothing changes |
| `Volumes.NewInodeKeeps` | kernel/fs.c:467-499 | marking a free inode number live with an empty inode keeps the invariant and the files |
| `Volumes.GrowKeeps` | kernel/fs.c:757-764 | a free block joined to an inode after its last block keeps the invariant, the files and every inode's bytes |
| `Volumes.EnterKeeps` | kernel/fs.c:388-400 | entering a new name for an unlisted inode keeps the invariant and adds exactly that name to the files |
| `Volumes.LeaveKeeps` | kernel/fs.c:431-438 | clearing an entry keeps the invariant and removes exactly that name from the files |
| `Volumes.ReleaseKeeps` | kernel/fs.c:531-537 | freeing an unlisted inode and its blocks keeps the invariant and the files |
| `Volumes.StoreKeeps` | kernel/fs.c:770-781 | writing a chunk into one block keeps the invariant and overwrites exactly that file at the position |
| `VolumeBounds.InodeCount` | kernel/fs.c:371-409 | the live inodes are at most the root, one for each used root entry, and those being created |
| `VolumeBounds.BlockCount` | kernel/fs.c:281-295 | the allocated blocks are at most block 0 and ten for each live inode |
| `VolumeBounds.RoomLeft` | kernel/fs.c:265-289 | there is always a free inode in the table and a free data block, so neither allocation ever fails |
| `VolumeBounds.SpaceBounds` | kernel/fs.c:265-289 | at most 161 inodes and 1611 data blocks are allocated between calls |
| `VolumeBounds.EnterSoundIff` | kernel/fs.c:388-393 | storing a name keeps the invariant if and only if its first 27 characters are not yet a name |
| `VolumeSteps.CreateUndone` | kernel/fs.c:502-508 | giving back the inode and block of a failed create restores a consistent volume with the same files |
| `VolumeSteps.UnlinkDone` | kernel/fs.c:531-542 | freeing first and clearing the entry afterwards is consistent and removes exactly the name |
| `VolumeSteps.FreedNext` | kernel/fs.c:532-534 | each block freed by unlink was allocated and is not freed twice |
| `VolumeSteps.ReadCountExact` | kernel/fs.c:667-693 | a read inside a file transfers min(size, bytes left) if and only if position plus size does not wrap or the file ends with its last block |
| `VolumeSteps.ReadPastEnd` | kernel/fs.c:672-678 | a wrapped read at byte 4 of a ten-byte file returns 508 bytes |
| `VolumeSteps.FormattedIsEmpty` | kernel/fs.c:137-160 | a formatted volume is consistent, has no files, and 511 and 1980 clear bits |
| `FileSteps.CreateDone` | kernel/fs.c:498-510 | inode and entry together add one empty file and leave all descriptors and other names as they were |
| `FileSteps.CreateBits` | kernel/fs.c:467-510 | a create sets one inode bit, for a directory one block bit, and at most one block bit for the root; the new inode is empty and its mode is the kind with the default permissions |
| `FileSteps.ModesAlike` | include/fs.h:28-36 | the mode of a file is 7 and that of a directory 6, so both pass the test for a directory |
| `FileSteps.SavedWords` | kernel/fs.c:125-139 | the thirteen words of the superblock that format writes, in order; a mount asks for 0x57495443 in the first |
| `FileSteps.SlashDropped` | kernel/fs.c:305-307 | one slash in front of a name is dropped, and a name without one is taken as it is |
| `FileSteps.LookupExact` | kernel/fs.c:328-349 | the lookup gives the inode of a used slot with exactly that name, or -1 if and only if no used slot has it |
| `FileSteps.UnlinkEffect` | kernel/fs.c:516-545 | unlinking a file removes one name, keeps every other name's inode and the volume consistent, and keeps the descriptors good if and only if none in use is on the file |
| `FileSteps.RootUnlinked` | kernel/fs.c:516-545 | what unlinking the root leaves is never a consistent volume |
| `FileSteps.FreeFd` | kernel/fs.c:590-602 | the first descriptor not in use, or -1 when all are |
| `WitFs.BitmapFindFree` | kernel/fs.c:198-205 | the first clear bit below the limit, or -1 when there is none |
| `WitFs.BitmapSet` | kernel/fs.c:207-209 | the array's bytes become the bit map with that bit set |
| `WitFs.BitmapClear` | kernel/fs.c:211-213 | the array's bytes become the bit map with that bit clear |
| `WitFs.FindEntry` | kernel/fs.c:337-344 | the first used entry of a block with the name, or -1 |
| `WitFs.FindFreeEntry` | kernel/fs.c:388-405 | the first unused entry of a block, or -1 |
| `WitFs.FileSystem.ReadInode` | kernel/fs.c:222-241 | the 80-byte inode of that number, failing exactly for numbers from 512 on |
| `WitFs.FileSystem.WriteInode` | kernel/fs.c:243-263 | the disk holds the inode and is otherwise unchanged; below 384 the volume's inode is replaced |
| `WitFs.FileSystem.AllocInode` | kernel/fs.c:265-273 | the lowest free number, marked in cache and disk alike, with the counter moving with the bit map |
| `WitFs.FileSystem.FreeInode` | kernel/fs.c:275-279 | the bit is clear in cache and disk alike; the counter goes up by one, ahead of the bit map exactly when the bit was clear already |
| `WitFs.FileSystem.AllocDataBlock` | kernel/fs.c:281-289 | the lowest free block, marked in cache and disk alike, with the counter moving with the bit map |
| `WitFs.FileSystem.FreeDataBlock` | kernel/fs.c:291-295 | the bit is clear in cache and disk alike; the counter goes up by one, ahead of the bit map exactly when the bit was clear already |
| `WitFs.FileSystem.PathLookup` | kernel/fs.c:302-349 | 0 for the empty path and for "/"; for a path with or without one leading slash, the inode number of the used slot with the rest as its name, or -1 if and only if there is none |
| `WitFs.FileSystem.DirAddEntry` | kernel/fs.c:354-410 | fails if and only if all 160 entries are used, and then changes nothing; otherwise adds one entry |
| `WitFs.FileSystem.DirRemoveEntry` | kernel/fs.c:415-448 | clears exactly the entry of the name and takes 32 off the root's size; -1 exactly when there is no such entry, and then nothing changes |
| `WitFs.FileSystem.FsCreate` | kernel/fs.c:453-511 | succeeds if and only if the name is new and not empty and fewer than 160 files exist; adds one empty file, unless the first 27 characters are another file's name, when the volume is left inconsistent; a failure leaves files, both bit maps and both counters as they were; sets one inode bit, one block bit for a directory and at most one for the root |
| `WitFs.FileSystem.FsUnlink` | kernel/fs.c:516-545 | removes exactly the name, clears exactly its inode's bit and its blocks' bits, keeps all other names' inodes, and leaves a valid file system if and only if the file was not open; unlinking the root succeeds and leaves an inconsistent volume |
| `WitFs.FileSystem.FsOpen` | kernel/fs.c:550-615 | the lowest free descriptor at position 0 on the named file, created when asked for; -1 exactly when there is no file or no descriptor; a file it makes takes one inode of mode 7 and at most one block, for the root |
| `WitFs.FileSystem.FsClose` | kernel/fs.c:620-631 | closes exactly that descriptor, failing exactly when it is not in use |
| `WitFs.FileSystem.FsRead` | kernel/fs.c:636-710 | returns the bytes from the descriptor's position on and moves only that descriptor |
| `WitFs.FileSystem.FsWrite` | kernel/fs.c:715-797 | writes min(size, 5120 - position) bytes, overwriting exactly the descriptor's file at the position; no other name's bytes change |
| `WitFs.FileSystem.FsFormat` | kernel/fs.c:102-186 | from any disk contents, an empty consistent file system whose free counters equal its clear bits; the root has mode 6 |
| `WitFs.FileSystem.FsInit` | kernel/fs.c:34-97 | with the magic number on the disk, the caches equal the disk and all descriptors are closed, whatever else it holds; on a consistent disk that is a valid file system with the counters saved by format; without the magic number nothing is mounted |
| `WitFsRuns.ShownRead` | kernel/fs.c:666-701 | a read of the volume replies and moves the descriptor as the abstract machine does |
| `WitFsRuns.ShownWrite` | kernel/fs.c:742-788 | a write to the volume replies and changes the files as the abstract machine does |
| `WitFsRuns.Step` | kernel/fs.c:34-797 | every call on the blocks replies what the abstract machine replies and leaves a representation of its next state; the free counters keep their distance to the clear bits except at a mount, and a format makes them exact |
| `WitFsRuns.Run` | kernel/fs.c:34-797 | the same for every allowed sequence of calls, mounts and formats included |
| `WitFsRuns.FormatAndRun` | kernel/fs.c:34-797 | from any disk: format, mount and any allowed run reply and end as the map from names to bytes does; without a further mount both free counters equal the clear bits |
| `WitFsTheorems.PointersSound` | kernel/fs.c:145-160 | every nonzero block pointer of a live inode is below 1981, allocated and found in no other slot of any live inode; block 0 is always allocated |
| `WitFsTheorems.PointersCover` | kernel/fs.c:747-782 | an inode's nonzero pointers are a prefix of at least ceil(size / 512) |
| `WitFsTheorems.NothingLeaks` | kernel/fs.c:281-295 | every allocated data block but block 0 is pointed at by a live inode |
| `WitFsTheorems.TransientBounds` | kernel/fs.c:467-508 | while a file or directory is being created, at most 162 inodes and 1612 blocks are allocated |
| `WitFsTheorems.NewInodeNumber` | kernel/fs.c:198-205 | first fit gives a new file a number of at most 161, whose inode lies before the data blocks |
| `WitFsTheorems.CreatedFoundIff` | kernel/fs.c:392-393 | a created name can be looked up if and only if it has at most 27 characters |
| `WitFsTheorems.LongNameLost` | kernel/fs.c:392-393 | a name of 28 letters is not found after its creation, and its first 27 letters are |
| `WitFsTheorems.LongNameCollides` | kernel/fs.c:392-393 | storing a name of 28 letters whose first 27 are a file leaves an inconsistent volume |
| `WitFsTheorems.RootWriteBreaks` | kernel/fs.c:770-781 | a write to the root directory that ends beyond its size, at no multiple of 32, leaves an inconsistent volume |
| `WitFsTheorems.RootWriteExample` | kernel/shell.c:1553-1594 | on a volume just formatted, writing "a" to the root makes it list inode 97, which is not live |
| `WitFsTheorems.OthersUntouched` | kernel/fs.c:102-797 | a call on a mounted file system leaves the presence and the bytes of every name but its own |
| `WitFsTheorems.FlagsDecide` | kernel/fs.c:550-797 | bit 0 of the flags of an open decides reading, bit 1 writing and bit 2 creating; reads and writes fail exactly when the descriptor is not open, lacks its bit or, for a write, stands beyond the file or 5120 bytes |
| `WitFsTheorems.WriteThenRead` | kernel/fs.c:636-797 | what one descriptor writes another at the same position reads, as far as 5120 bytes reach; every other byte of the file stays |
| `WitFsTheorems.SpelledAlike` | kernel/fs.c:302-313 | create, open and unlink of a name do the same with and without a leading slash |
| `WitFsTheorems.EitherSpelling` | kernel/fs.c:302-627 | on the disk: a file created under either spelling is opened and unlinked under either; every call succeeds and the files are those from before |
| `WitFsTheorems.SaveAndLoad` | kernel/fs.c:34-797 | on the disk: bytes written to a new file are what is read after mounting again and reopening it, and no other file has changed |
| `HeapBlocks.TotalHolds` | kernel/heap.c:62-72 | the block asked for holds the request if and only if the request is at most 0xFFFFFFEC, and its size is the rounded request plus header, at least 32 |
| `HeapBlocks.TotalWraps` | kernel/heap.c:65-72 | larger requests ask for 32 bytes |
| `HeapBlocks.Canonical` | kernel/heap.c:20-38 | two tilings of the same interval without free neighbours and with the same allocated blocks are equal |
| `HeapBlocks.FirstFit` | kernel/heap.c:74-107 | the first free block large enough, or none |
| `HeapBlocks.TakeKeeps` | kernel/heap.c:84-100 | splitting and allocating a free block keeps the tiling and adds exactly one allocated block |
| `HeapBlocks.CoalesceKeeps` | kernel/heap.c:20-38 | one merging pass over any tiling leaves no free neighbours, the same tiling and the same allocated blocks |
| `HeapBlocks.ReleaseKeeps` | kernel/heap.c:143-147 | freeing a block removes exactly it from the allocated ones and keeps the invariant |
| `HeapBlocks.FreeUndoesTake` | kernel/heap.c:84-147 | freeing the block just allocated gives back the same list |
| `HeapBlocks.GapInFree` | kernel/heap.c:20-38 | every range of the heap that no allocated block reaches into lies inside one free block |
| `HeapBlocks.FirstFitExact` | kernel/heap.c:74-110 | first fit fails if and only if no such range is large enough, and otherwise finds the lowest one |
| `HeapBlocks.AllFree` | kernel/heap.c:43-49 | a list with nothing allocated is the single initial block |
| `HeapRuns.MallocExact` | kernel/heap.c:62-111 | null exactly for a zero request or when no range holds the rounded request and header; otherwise the lowest such range |
| `HeapRuns.MallocBlock` | kernel/heap.c:84-103 | the new block holds the request, is 4-aligned, is disjoint from every allocated block, and all those are unchanged |
| `HeapRuns.FreeUndoesMalloc` | kernel/heap.c:84-148 | kfree of the pointer just returned restores the block list exactly |
| `HeapRuns.FreeExact` | kernel/heap.c:116-148 | removes exactly the pointer's block; any other pointer changes nothing |
| `HeapRuns.ReallocExact` | kernel/heap.c:153-191 | stays in place exactly when the payload holds the request; fails exactly when it does not and no range will do; otherwise moves to the lowest such range; only the given block is replaced, and a failure or an in-place result changes nothing |
| `HeapRuns.ReallocNull` | kernel/heap.c:154-156 | krealloc of null allocates: null exactly for a zero request or when no range will do, otherwise one block more at the lowest such range |
| `HeapRuns.ReallocZero` | kernel/heap.c:158-161 | krealloc to size 0 returns null, and of the allocated blocks exactly the pointer's is gone |
| `HeapRuns.OverrunIff` | kernel/heap.c:171-185 | for a size above 0xFFFFFFEC the copy of the old payload leaves the new block if and only if the old block is larger than the new one, which is the rounded 32 bytes or the whole first fit; never for a block of 32 bytes, always from 64 on |
| `HeapRuns.OverrunExample` | kernel/heap.c:171-185 | krealloc(kmalloc(100), 0xFFFFFFFF) on a new heap copies 100 bytes into a block of 32 |
| `HeapRuns.SmallCopyFits` | kernel/heap.c:171-185 | for every other size the old payload fits the new block |
| `HeapRuns.StepKeeps` | kernel/heap.c:62-191 | every call keeps the list in order and its allocated blocks equal to the pointers handed out and not given back |
| `HeapRuns.StepOthers` | kernel/heap.c:62-191 | no call frees or moves an allocated block whose pointer it is not given |
| `HeapRuns.RunKeeps` | kernel/heap.c:62-191 | the same over every run |
| `HeapRuns.AllFreedRestores` | kernel/heap.c:116-148 | after any run in which everything was freed, in any order, the list is the single initial 4 MB block |
| `HeapRuns.PayloadsApart` | kernel/heap.c:84-103 | in every run the payload of one held pointer ends before the header of the next |
| `HeapRuns.BytesConserved` | kernel/heap.c:214-240 | in every run used and free sizes add up to 4 MB |
| `HeapRuns.SizesAdd` | kernel/heap.c:214-240 | the used size is the sum over the set of allocated blocks and the free size the sum over the set of free ones, headers included |
| `HeapRuns.UsedAtStart` | kernel/heap.c:43-49 | a new heap has 0 used and 4194304 free |
| `HeapRuns.UsedAfterMalloc` | kernel/heap.c:62-111 | a successful kmalloc raises the used size by exactly the size of its new block, a failed one leaves it |
| `HeapRuns.UsedAfterFree` | kernel/heap.c:116-148 | kfree of a held pointer lowers the used size by exactly its block's size, of any other pointer leaves it |
| `HeapRuns.UsedAfterRealloc` | kernel/heap.c:153-191 | krealloc moves the used size by exactly the difference of the two blocks' sizes, a failed one leaves it |
| `HeapMemory.WrittenPayloads` | kernel/heap.c:89-96 | a header written at the start of a block, or anywhere inside a free one, changes no byte of an allocated payload |
| `HeapMemory.WrittenApart` | kernel/heap.c:89-96 | a header written in memory leaves every header that does not overlap it |
| `HeapMemory.HeaderWords` | include/heap.h:12-26 | in memory each block starts with its size, 1 or 0 for free, 0xDEADBEEF and the address of the next block or 0 |
| `KernelHeap.MergedLinked` | kernel/heap.c:29-33 | rewriting one header in memory merges two blocks of the list; no other header and no byte of an allocated payload changes |
| `KernelHeap.TookPart` | kernel/heap.c:87-100 | the two headers of a split, written into the heap's bytes, make the list with the block split; no other header and no byte of an allocated payload changes |
| `KernelHeap.TookWhole` | kernel/heap.c:99-100 | the same for a block taken whole |
| `KernelHeap.Heap.constructor` | kernel/heap.c:43-49 | one free block of 4 MB |
| `KernelHeap.Heap.Kmalloc` | kernel/heap.c:62-111 | the headers in the heap's bytes and the pointer are those of the list model; no byte of an allocated payload changes, and no byte at all on failure; the magic check never fails |
| `KernelHeap.Heap.CoalesceFreeBlocks` | kernel/heap.c:20-38 | the pass over the chain in memory is the merging pass over the list; no byte of an allocated payload changes |
| `KernelHeap.Heap.Kfree` | kernel/heap.c:116-148 | the list model's free for null, an allocated block, and any pointer whose header is missing or says free; no byte of a payload still allocated changes; a second free of the same pointer is ignored |
| `KernelHeap.Heap.Krealloc` | kernel/heap.c:153-191 | the list model's realloc; a moved block's whole old payload stands in the new block, and no byte of any other allocated payload changes; a pointer that is not held gets null and nothing changes |
| `KernelHeap.Heap.FillPayload` | kernel/heap.c:102-103 | a holder's write inside its payload changes that payload there and no other payload, header or block |
| `KernelHeap.Heap.UsedSize` | kernel/heap.c:214-226 | the sum of the sizes of the set of allocated blocks |
| `KernelHeap.Heap.FreeSize` | kernel/heap.c:228-240 | the sum of the sizes of the set of free blocks, which is 4 MB less the used size |
| `KernelHeap.Run` | kernel/heap.c:62-191 | any allowed run of calls on the heap in memory, with holders writing into their payloads in between, returns the pointers and ends with the list of the list model; every block whose pointer is given to no call holds exactly what its holder wrote into it |
| `KernelHeap.OnlyCalls` | kernel/heap.c:62-191 | a run without such writes is the list model's run |
| `Pmm.UsedAfterSet` | kernel/pmm.c:15-19 | setting a bit of a word adds exactly that page to the used pages |
| `Pmm.UsedAfterClear` | kernel/pmm.c:24-28 | clearing a bit of a word removes exactly that page |
| `Pmm.PageWorth` | kernel/pmm.c:15-37 | page p is worth 2^(p % 32) in word p / 32 |
| `Pmm.UsedDetermines` | kernel/pmm.c:9-37 | two bit maps with the same used pages are equal word by word |
| `Pmm.FreedRun` | kernel/pmm.c:162-166 | freeing n pages from a page above the kernel clears exactly those pages |
| `Pmm.FreedIs` | kernel/pmm.c:119-166 | the pages cleared are those from 512 to 4095 whose address is one of the n 32-bit addresses gone through |
| `Pmm.FreePagesUndoes` | kernel/pmm.c:141-166 | marking a free run and freeing it gives back the used pages |
| `Pmm.PageAllocator.constructor` | kernel/pmm.c:76-86 | pages 0 to 511 used, all others free, and the counter 512 |
| `Pmm.PageAllocator.FindFreePage` | kernel/pmm.c:42-49 | the least free page, or none exactly when all are used |
| `Pmm.PageAllocator.FindFreePages` | kernel/pmm.c:54-71 | the skip-ahead search finds the least start of a free run of that length, as the naive search does, or none exactly when there is none |
| `Pmm.PageAllocator.AllocPage` | kernel/pmm.c:103-114 | the lowest free page; address 0 exactly when none is free; the counter stays the number of set bits |
| `Pmm.PageAllocator.FreePage` | kernel/pmm.c:119-136 | clears exactly that page; kernel, unaligned and out-of-range addresses are ignored |
| `Pmm.PageAllocator.AllocPages` | kernel/pmm.c:141-157 | the lowest free run; address 0 exactly when the count is 0 or there is none |
| `Pmm.PageAllocator.FreePages` | kernel/pmm.c:162-166 | clears exactly the pages of the 32-bit addresses it goes through |
| `Pmm.AllocThenFree` | kernel/pmm.c:141-166 | allocating and freeing a run restores every word of the bit map and the counter |
| `Pmm.AllocOverHeap` | kernel/pmm.c:76-114 | the page handed out lies in the heap's 4 MB if and only if one of the 1024 pages there is not in use; on a new allocator it is the heap's first page |
| `PageTables.MakeEntry` | kernel/paging.c:42-51 | the entry's frame is the address's, its low twelve bits the flags', and it is present exactly when the flags are |
| `PageTables.AddTableWalks` | kernel/paging.c:110-124 | a new cleared table changes the walk of no page of any directory |
| `PageTables.SetEntryWalks` | kernel/paging.c:130-131 | writing a table entry shows in the walk of that page from that directory alone, or below 16 MB from every directory |
| `PageTables.MapInTable` | kernel/paging.c:125-131 | mapping into an existing table keeps the structure and changes only that page's walk |
| `PageTables.MapInNewTable` | kernel/paging.c:110-131 | mapping into a new table keeps the structure, takes one frame and changes only that page's walk |
| `PageTables.NoUserPages` | kernel/paging.c:110-131 | in every valid state each directory entry in use ends in 3, so no page of any directory is user in both of its entries |
| `PageTables.AddDirectoryKeeps` | kernel/paging.c:364-382 | a new user directory keeps the structure |
| `PageTables.AddDirectoryWalks` | kernel/paging.c:371-379 | a new directory walks the kernel's 16 MB and nothing else, and no other directory's walk changes |
| `PageOwnership.OwnsMapped` | kernel/paging.c:100-135 | a page mapped where there was none adds its frame and its table to the directory's frames, and nothing else |
| `PageOwnership.AddDirectoryAccounted` | kernel/paging.c:364-382 | a new directory owns one frame and every frame in use still has one owner |
| `PageOwnership.MappedAccounted` | kernel/paging.c:284-292 | a frame taken and mapped is owned by the directory, with its table, and every frame in use still has one owner |
| `PageOwnership.FreedAccounted` | kernel/paging.c:396-419 | without one directory's frames, the structure and the accounts of all other directories stand |
| `Paging.PagesOfCovers` | kernel/paging.c:436 | the pages counted cover the size if and only if the size is at most 0xFFFFF000, and then there are ceil(size / 4096) |
| `Paging.PagesOfWraps` | kernel/paging.c:436 | above that, none |
| `Paging.MapTranslates` | kernel/paging.c:100-181 | after a page is mapped present, its addresses translate to the new frame plus offset, and no other address in this or, at or above 16 MB, any directory translates differently |
| `Paging.RunTranslates` | kernel/paging.c:427-448 | every address of the run whose table was there or could be allocated translates into the run of frames |
| `Paging.TranslateWalks` | kernel/paging.c:162-181 | the translation entry by entry: 0 where the directory entry or the table entry is not present, else the frame of the table entry plus offset |
| `Paging.NewTranslates` | kernel/paging.c:364-382 | a new directory translates the first 16 MB as the kernel does and every other address to 0; no other directory translates differently |
| `Paging.RunFlags` | kernel/paging.c:427-448 | the entry of every page of the run whose table is there ends in 7: present, writable and user; the page is not reached from user mode all the same |
| `Paging.IdentityMap` | kernel/paging.c:206-235 | the loop over 4096 pages enters four early tables and maps each page to itself |
| `Paging.AddressSpaces.constructor` | kernel/paging.c:202-244 | the entry of each page of the first 16 MB is its own address with present and writable and without user, no other page is mapped, and every frame in use is the base |
| `Paging.AddressSpaces.MapPage` | kernel/paging.c:100-135 | fails exactly when the table is missing and no frame is left, and then changes nothing; otherwise only that page's walk changes and at most one frame is taken |
| `Paging.AddressSpaces.UnmapPage` | kernel/paging.c:140-157 | only that page's walk is gone, its addresses translate to 0, and no directory entry changes |
| `PageOwnership.UnmappedAccounted` | kernel/paging.c:140-157 | at most the unmapped page's frame leaves its directory's account; it stays in use and every frame in use still has one owner or belongs to the base |
| `Paging.AddressSpaces.GetPhysicalAddress` | kernel/paging.c:162-181 | the frame of the walk plus offset, or 0 where the walk ends |
| `Paging.AddressSpaces.CreateUserDirectory` | kernel/paging.c:364-382 | fails exactly when no frame is free; otherwise one fresh directory with the kernel's four entries, owning only its own frame, that translates nothing at or above 16 MB |
| `Paging.AddressSpaces.MapUserCode` | kernel/paging.c:427-448 | maps every page of the run unless its table is missing and no frame was left; no other walk changes; the current directory is put back; the entries of the run's pages end in 7 where their tables are there |
| `Paging.AddressSpaces.FreeDirectory` | kernel/paging.c:396-419 | the used pages lose exactly the directory's own frame, its tables above 16 MB and the frames they map; everyone else's accounts stand |
| `Paging.AddressSpaces.TakeAndMap` | kernel/paging.c:284-292 | a frame is taken and mapped, or lost exactly when the page needs a table and the frame was the last one; the entry is then the frame with present, writable and user |
| `Paging.LastFrameLost` | kernel/paging.c:284-292 | with frame 4095 the only one left and the table missing, the frame is taken and lost |
| `Paging.AddressSpaces.HandleFault` | kernel/paging.c:259-302 | handled exactly for a missing page of a user process in the heap and stack region while a frame is free; otherwise nothing changes; a page whose table is there then has an entry ending in 7 |
| `Paging.Lifecycle` | kernel/paging.c:364-448 | create, any number of take-and-map steps, free: if all succeeded, every word of the page bit map and the counter are as before; otherwise exactly the lost frames remain |
| `PagingRuns.Run` | kernel/paging.c:140-448 | over every interleaving of creating, touching, unmapping and freeing in any number of spaces each frame in use has one owner; the base grows by exactly the frames that touches lost and unmaps left behind; once all spaces are freed those alone are in use more than before, and without any the page allocator is exactly as before |
| `Processes.EnqueueAppends` | kernel/process.c:484-495 | the ring takes a message at the end of what is waiting, with tail = (head + count) mod 8 |
| `Processes.DequeueTakesFirst` | kernel/process.c:524-539 | the ring gives out the oldest message and keeps the others in order |
| `Processes.BestChosen` | kernel/process.c:586-615 | the nested scan finds a ready process of top priority: the last of them if it lies behind the current slot, and the first otherwise |
| `Processes.NeverStuck` | kernel/process.c:617-620 | idle is always ready for the scan, so the fallback to idle is never taken |
| `Processes.ScheduleKeeps` | kernel/process.c:578-642 | after scheduling exactly the current process runs |
| `Processes.CreateKeeps` | kernel/process.c:95-181 | a slot is found whenever the count allows it, so the last return is never reached; pids stay unique until the next pid wraps |
| `ProcessRuns.StepKeeps` | kernel/process.c:95-642 | every call and tick keeps: at most the current process runs, idle keeps slot 0 ready or running, the count is the number of slots taken, rings are well formed, and pids are unique until the next pid wraps |
| `ProcessRuns.RunUnique` | kernel/process.c:119-120 | pids stay unique over every run that does not use them all up |
| `ProcessRuns.StartInv` | kernel/process.c:38-90 | the invariant holds after initialisation |
| `ProcessRuns.StoppedStays` | kernel/process.c:337-642 | a blocked or terminated process changes, apart from priority and messages, only by its kill, its wake-up, its time or, when it has no wake time, a message |
| `ProcessRuns.TerminatedStays` | kernel/process.c:337-374 | a terminated process stays terminated until its slot is emptied by a kill |
| `ProcessRuns.CreatedExact` | kernel/process.c:95-196 | the created process is found under its pid, which nobody had: ready, with no messages and the priority asked for up to 255; every other slot is as it was |
| `ProcessRuns.CreateExact` | kernel/process.c:95-181 | the pid returned is 0 exactly when the table has 16 members or an allocation failed, and then no slot changes; otherwise it is the next pid, held by one new ready process of priority 5 in the first empty slot; the next pid moves exactly for a success and for a missing queue |
| `ProcessRuns.CreateWithPriorityExact` | kernel/process.c:186-196 | the same with the priority asked for, up to 255 |
| `ProcessRuns.SetPriorityExact` | kernel/process.c:313-321 | the priority of the process with the pid is the one asked for up to 255; no other field and no other slot changes |
| `ProcessRuns.WakeExact` | kernel/process.c:430-443 | 0 exactly for a blocked process, which is then ready with wake time 0, every other slot the same; -1 without such a process and -2 in another state, and nothing changes |
| `ProcessRuns.KilledOther` | kernel/process.c:345-373 | killing another process makes its pid disappear, empties its slot alone and lowers the count by one |
| `ProcessRuns.KilledCurrent` | kernel/process.c:350-354 | killing the current process leaves it terminated in its slot, still counted, and another process runs |
| `Sleeping.SleepExact` | kernel/process.c:408-463 | a process that sleeps for ms, ending in time, is blocked over every run without kill or wake-up in which fewer than ms ticks pass, or none for 0 ms, messages included |
| `Sleeping.SleepOver` | kernel/process.c:448-463 | the tick that comes ms ticks after, or the next one for 0 ms, makes it ready, or running if it is scheduled at once |
| `Sleeping.SleepForever` | kernel/process.c:418-457 | a sleep whose end is tick 0 or exactly tick 2^32 is ended by no tick, over every run without kill, wake-up or message to it |
| `Sleeping.MessageEndsIt` | kernel/process.c:497-500 | a message to a process blocked with wake time 0 makes it ready |
| `Sleeping.SleepWraps` | kernel/process.c:418-457 | a sleep whose end lies past 2^32 is over at the very next tick if and only if it does not start at tick 0xFFFFFFFF |
| `Sleeping.SleepLastsIff` | kernel/process.c:408-463 | a sleep of ms > 0 lasts exactly ms ticks if and only if t + ms < 2^32, or t is 0xFFFFFFFF and ms > 1; a sleep of 0 ms ends at the next tick if and only if 0 < t < 0xFFFFFFFF |
| `Sleeping.ZeroSleepAtTickZero` | kernel/process.c:418-457 | a sleep of 0 ms at tick 0 is ended by no number of ticks |
| `Sleeping.ZeroSleepAtLastTick` | kernel/process.c:418-457 | a sleep of 0 ms at tick 0xFFFFFFFF is still blocked after any number of ticks below 2^32 |
| `Scheduling.PickExact` | kernel/process.c:586-642 | the scheduler switches to the last process of top priority if it lies behind the current slot, else to the first |
| `Scheduling.ScheduleExact` | kernel/process.c:578-642 | the process chosen runs, one that ran before is ready, and no other slot changes; the choice is the last ready process of top priority if it lies behind the caller's slot, else the first |
| `Scheduling.SleepPicks` | kernel/process.c:408-425 | the sleeper is blocked until its time and the processor goes to that choice among the others; every other slot is as it was; idle does not sleep |
| `Scheduling.KillPicks` | kernel/process.c:350-354 | the killed current process stays behind terminated and the processor goes to that choice among the others; every other slot is as it was |
| `Scheduling.KillExact` | kernel/process.c:337-378 | the three cases of a kill: nothing for idle and unknown pids; for another process its slot alone is emptied, the count is one less and its pid is gone; for the caller as above |
| `Scheduling.CheckSleepingExact` | kernel/process.c:448-463 | slot by slot: a blocked process whose wake time is not 0 and has come is ready with wake time 0, and every other slot is as it was |
| `Scheduling.TickExact` | kernel/timer.c:60-71 | a tick counts in 32 bits, wakes the sleepers that are due and, at every multiple of ten, hands the processor on as the scheduler does |
| `Scheduling.Alternates` | kernel/process.c:586-642 | with nothing else happening, the processor goes back and forth between the first and the last |
| `Scheduling.TwoAlternate` | kernel/process.c:599-613 | two processes of top priority take turns |
| `Scheduling.TurnIff` | kernel/process.c:599-613 | under repeated scheduling with nothing else happening, a process gets a turn if and only if it is the first or the last of those of top priority |
| `Scheduling.TurnInRunIff` | kernel/timer.c:60-71 | the same over all runs of ticks and yields in which nobody wakes |
| `Scheduling.FairIff` | kernel/process.c:599-613 | under repeated scheduling, every process of top priority gets a turn if and only if none lies between two others |
| `Scheduling.MiddleStarves` | kernel/process.c:599-613 | of three processes just created the middle one is of top priority and is never chosen, in any run of ticks and yields |
| `Messages.SendExact` | kernel/process.c:468-503 | accepted if and only if it has 1 to 256 bytes, its target exists and fewer than eight wait there, and otherwise -1, -2 or -3 in that order with no change; it then waits behind those, a receiver blocked without a wake time is ready, and no other field or slot changes |
| `Messages.ReceiveDelivers` | kernel/process.c:508-542 | delivers the oldest message's sender and its first min(length, max) bytes and leaves the others waiting and everything else alone; -2 for max 0 and -3 with none waiting, and nothing changes |
| `Messages.Fifo` | kernel/process.c:468-542 | over every run in which a process lives: what waited and was accepted is, in order, what was taken and what still waits |
| `ProcessManager.StepNext` | kernel/process.c:95-642 | every call and tick, with what it returns, satisfies a relation that states its effect on the table without the functions that compute it |
| `ProcessManager.RunLeads` | kernel/process.c:95-642 | the same along every run: the states and returns are linked step by step by that relation |
| `ProcessManager.Manager.constructor` | kernel/process.c:38-90 | only idle, in slot 0 with priority 0, current and ready; one process counted, the next pid 1; the invariant holds |
| `ProcessManager.Manager.Get` | kernel/process.c:565-572 | the first slot with the pid, or 16 |
| `ProcessManager.Manager.Scan` | kernel/process.c:586-615 | the nested loops compute the scan's specification |
| `ProcessManager.Manager.Reschedule` | kernel/process.c:578-642 | the state changes as scheduling says: the last of top priority behind the current slot or else the first runs, and no other slot but the current one changes; the invariant holds again |
| `ProcessManager.Manager.CreateProcess` | kernel/process.c:95-181 | the pid is 0 exactly when the table is full or an allocation failed, and then no slot changes; otherwise one new process of priority 5 in the first empty slot; the last return is unreachable |
| `ProcessManager.Manager.CreateProcessWithPriority` | kernel/process.c:186-196 | the same with the priority asked for, clamped to 255 |
| `ProcessManager.Manager.SetProcessPriority` | kernel/process.c:313-321 | the process's priority is clamped to 255 and nothing else changes, or -1 if there is none |
| `ProcessManager.Manager.KillProcess` | kernel/process.c:337-378 | nothing happens for idle and unknown pids; another process disappears from its slot alone; the current one stays behind terminated and counted, and the processor goes to the scheduler's choice among the others |
| `ProcessManager.Manager.SleepCurrent` | kernel/process.c:408-425 | the current process is blocked with its wake time and the processor goes to the scheduler's choice among the others, with every other slot as it was; idle does not sleep |
| `ProcessManager.Manager.WakeProcess` | kernel/process.c:430-443 | a blocked process is ready again with wake time 0 and nothing else changes; -1 and -2 otherwise, and nothing changes |
| `ProcessManager.Manager.WakeSleepers` | kernel/process.c:448-463 | exactly the sleepers whose time has come are ready, with wake time 0 |
| `ProcessManager.Manager.TimerTick` | kernel/timer.c:60-71 | ticks advance in 32 bits, the sleepers that are due are woken, and every tenth tick hands the processor on |
| `ProcessManager.Manager.SendMessage` | kernel/process.c:468-503 | accepted if and only if it has 1 to 256 bytes, its target exists and fewer than eight wait there, else -1, -2 or -3 and no change; then it waits last, with its sender |
| `ProcessManager.Manager.ReceiveMessage` | kernel/process.c:508-542 | the oldest message's sender and as many bytes as fit, the others still waiting in order; -2 for max 0, -3 when none waits, and no change |
| `ProcessManager.Manager.RunEvents` | kernel/process.c:38-642 | any allowed run of calls and ticks returns and ends as the model's run does, every step being one the relation `Next` allows |

## Left out

- Assembly, boot, GDT, IDT, PIC, PIT ports, CR0, CR3 and TLB instructions, and context switches: hardware effects.
- Interrupts in the middle of a call: the code takes no locks, and calls are steps here.
- Screen output, keyboard, shell, number formatting and `kernel/string.c`: memory and string copies are sequence operations here.
- A failing `kmalloc(512)` inside WitFS, and null pointers as arguments.
- WitFS timestamps beyond being stored, `fs_readdir`, `fs_stat`, `fs_exists`, `fs_mkdir` and `fs_rmdir`: they add only easy members, and files and directories cannot be told apart by mode (include/fs.h:30-34).
- After a failed `fs_init` the source keeps pointers to freed bit map buffers; here the buffers are new ones and the file system is not mounted.
- `kcalloc`, whose product may wrap, and `heap_get_block_count`, `heap_get_free_block_count`: easy members.
- Callers of the heap that write outside their payload, and what `kfree` and `krealloc` make of bytes before a foreign pointer that look like the header of an allocated block.
- What page tables and page contents do to the heap's bytes where the two overlap (`Pmm.AllocOverHeap`): the heap and the page tables are modelled on memories of their own.
- `paging_clone_directory`, the processor's part of `paging_switch_directory`, and the part of the fault handler that reports and halts.
- `process_create_user_mode` and the entry to user mode; names, stacks, CPU state and time slices of processes.
- The idle process in messages: its queue is never initialised, so sends to pid 0 and receives by idle are excluded.
- Pointers to processes: the current process is its slot, and the search for it in the table finds that slot.
- WitFs.FileSystem.FsWrite: requires that the descriptor is not on the root directory, although the shell's `write` can open one; what such a write can do to the volume is `WitFsTheorems.RootWriteBreaks`.
- WitFsRuns.Run: keeps the free counters' distance to the clear bits only up to a mount, since only format saves them; and is stated for names of 1 to 27 characters, no unlink of an open file and no wrapped read, beyond which the calls are described one by one.
- Pmm.PageAllocator.FindFreePages: requires a count of at most 4096; above that the source reads beyond its bit map.
- KernelHeap.Heap.Kfree: requires null, an allocated block, or a pointer whose header lies outside the heap, is no header or says free.
- KernelHeap.Heap.Krealloc: requires null, an allocated block, or an address in the heap without a header; and that the copy, if there is one, does not overrun the new block, for which `HeapRuns.OverrunIff` has the exact condition.
- KernelHeap.Run: frees only pointers that are held, or null; `HeapRuns.RunKeeps` has no such condition.
- WitFs.FileSystem.FsOpen: requires that a long name's first 27 characters are not another file's name; the create it would make is `WitFs.FileSystem.FsCreate`.
- Pmm.PageAllocator.AllocPages: requires a count of at most 4096, like the search it calls.
- Pmm.AllocThenFree: requires a count of at most 4096, for the same reason.
- Paging.AddressSpaces.FreeDirectory: requires that the directory is not the current one; the source would leave the processor in freed tables.
- PagingRuns.Run: maps only frames just taken; what freeing does to frames that are mapped otherwise is `Paging.AddressSpaces.FreeOwned`.
- ProcessManager.Manager.SendMessage: requires a pid other than 0, whose queue is never initialised.
- ProcessManager.Manager.ReceiveMessage: requires that the caller is not idle, whose queue is never initialised.
