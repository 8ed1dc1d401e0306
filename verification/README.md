# Verified model of the kernel's stateful core

This project models, in Dafny, the parts of the operating system that keep state over
long runs, and proves what they promise over every input, every state and every run:

- **Block cache** (`Recency`, `BlockCache`): the write-back LRU cache of `disk.c` refines a
  plain array of blocks, and the blocks it holds are described exactly by the access trace.
- **File system** (`DiskFormat`, `FileTree`, `BlockCount`, `FileSystem`, `Directory`,
  `PathNames`, `PathWalk`): files as byte strings behind direct and indirect block trees, on top of the
  cache, with the exact number of blocks every change needs; and **mkfs**
  (`HostTree`, `Mkfs`), the second implementation of the same format, whose images the
  kernel reads back (`FreshImage`).
- **Pages and address spaces** (`Sv39`, `Ownership`, `PageTables`, `Memory`, `FreeSpace`,
  `AddressSpace`, `Mmu`, `Fork`, `UserMemory`, `MemoryRuns`): the free list, Sv39 page tables
  (section 4.4 of the RISC-V Privileged Architecture, version 20211203) and what the hardware
  finds in them at every address (the A and D bits aside), fork, recursive freeing, brk,
  mmap, munmap, the space of a new program, and any run of these calls. Every pool page has
  exactly one role until a call finds no page for a table, and each such call loses at most
  one page.
- **Process table** (`ProcFamily`, `Processes`): fork, exit, kill, wait, sleep and the
  round-robin scheduler.
- **Open files and pipes** (`Pipes`, `OpenFiles`, `FileCalls`): reference counts against
  descriptor tables, pipe lifetimes, first-in-first-out traffic.
- **Processes as a whole** (`Kernel`, `ProgramImage`): slot, address space and descriptors
  together, over fork, termination, exec and wait; what a new program finds in its memory.
- **Sound queue** (`SoundQueue`, `SoundDriver`): the transmit virtqueue as a protocol between
  driver and device, the device being allowed any number of steps between the driver's,
  also between storing a ring entry and publishing it.
- **Input ring** (`InputRing`), **DEFLATE decoding** (`BitStrings`, `HuffmanCode`,
  `HuffmanTable`, `LengthCodes`, `Inflate`), the **boot movie codec** (`NyanCodec`,
  `NyanPlayer`) and the **program loader** (`Loader`, `UserStack`).

`Bytes` and `Limits` hold what several of them share. Code that changes state in place is a
class with methods proved against functions of the old state; what the source promises about
whole runs is proved as invariants the methods keep and as lemmas about those functions.
A `panic` is an outcome (`ok` is false) whose cause the contract names.

Five places where the code does less than its description, with the exact condition:

- `fs_dup` counts every duplication on the pipe, `fs_close` only the last close. A pipe is
  therefore freed at its last close if and only if no end was ever duplicated
  (`OpenFiles.FreedIffNeverDuplicated`; the record of duplications follows each call by the
  contracts of `FsDup`, `FsClose` and `FsPipeCreate`). A pipe kept that way is never freed or
  handed out again (`StuckStay` in every call of `FileCalls.FileTables` that opens a pipe,
  duplicates or closes, `FileCalls.TrafficSparesStuck` for reading and writing; `sys_open`
  touches no pipe), and `FileCalls.StuckRun` reaches one. That a pipe is never freed too early
  always holds.
- `fs_open` marks the File of an inode that is neither file nor directory as free. Every
  reference count is exact after an open if and only if the open failed or the inode is one
  of the two (`FileCalls.FileTables.SysOpen`). Otherwise the next open shares the slot
  (`FileCalls.FreeInodeRun`); pipes and their ends stay in step all the same.
- `mkfs` stores 28 bytes of a name, path lookup compares 27 and a terminator. A name is found
  under itself if and only if it is shorter than 28 bytes (`Directory.FoundUnderItsOwnName`).
- A zombie nobody lists is collected by no wait. Emptying a slot leaves a zombie so if and
  only if that slot listed it or nobody did (`ProcFamily.ResetAbandons`). Ending a process
  that nobody lists, and collecting one, abandon exactly the zombies it lists; every other
  method abandons nobody (`AbandonsListed` and `SameAbandoned` in each method of
  `Processes.ProcTable`), and none takes it back. `Processes.AbandonedRun` reaches one.
- A sleeper wakes exactly when its seconds are over if and only if the deadline fits 64 bits
  or wraps to 0, which is never (`Processes.SleepsLongEnough`, `Processes.SleepsTooShort`).

`dafny verify dfyconfig.toml` checks the whole project.

## Model

| member | source | states |
|---|---|---|
| Recency.RecentCharacterised | kernel/disk/disk.c:296-299 | for any access trace, the recency list holds each accessed block once, no other, by falling time of last access |
| Recency.RecentStep | kernel/disk/disk.c:331-337 | accessing a listed block moves it to the front and keeps the order of the others |
| Recency.RecentStepPrefix | kernel/disk/disk.c:339-350 | accessing a block outside the first k puts it before exactly those k, whether or not it was known |
| BlockCache.DiskCache.CachedAreMostRecent | kernel/disk/disk.c:286-383 | in every reachable state the valid entries are the k most recently accessed distinct blocks for some k, and k is the smaller of the cache size and the number of distinct blocks while no device read has failed |
| BlockCache.AllClean | kernel/disk/disk.c:378-383 | a coherent cache without dirty entries means the device is the abstract block array |
| BlockCache.OrderFull | kernel/disk/disk.c:312-321 | the recency order is as long as the cache exactly when no entry is free |
| BlockCache.EvictOrder | kernel/disk/disk.c:312-329 | the entry with the smallest time stamp is the least recent one, and dropping it keeps list, stamps and blocks in step |
| BlockCache.InsertOrder | kernel/disk/disk.c:339-350 | filling a free entry makes its block the most recent one and keeps the order of the rest |
| BlockCache.TouchOrder | kernel/disk/disk.c:296-299 | a hit moves its entry to the front of the order and keeps the rest |
| BlockCache.DiskCache.CacheLookup | kernel/disk/disk.c:286-294 | finds the entry that holds the block, or reports that no valid entry does |
| BlockCache.DiskCache.CacheTouch | kernel/disk/disk.c:296-299 | stamps the entry with a fresh clock value, records the access and keeps the cache coupled to trace, device and contents |
| BlockCache.DiskCache.CacheFlushEntry | kernel/disk/disk.c:301-310 | leaves no dirty data behind and changes neither the abstract contents nor anything but the dirty flag |
| BlockCache.DiskCache.CacheAllocEntry | kernel/disk/disk.c:312-329 | returns a free entry, writing back and dropping the least recently used one only when all are valid |
| BlockCache.DiskCache.CacheLoadEntry | kernel/disk/disk.c:331-351 | a hit or a filled entry for the block, counted as an access; a failed device read changes no contents and is remembered |
| BlockCache.DiskCache.DiskRead | kernel/disk/disk.c:353-361 | a successful read returns the last value written to the block; nothing else changes |
| BlockCache.DiskCache.DiskWrite | kernel/disk/disk.c:363-376 | exactly the addressed block of the abstract array changes, to the data written |
| BlockCache.DiskCache.DiskFlush | kernel/disk/disk.c:378-383 | afterwards the device equals the abstract array |
| DiskFormat.InodeRoundTrip | kernel/fs/fs.h:50-55 | the 56 bytes of an inode read back as the inode |
| DiskFormat.PutInodeReads | kernel/fs/fs_readi.c:101-114 | rewriting one inode slot of a block makes it readable and leaves the others |
| DiskFormat.InodesUpdate | kernel/fs/fs_readi.c:101-114 | rewriting an inode in its block changes exactly that row of the inode table |
| DiskFormat.UsedUpdate | kernel/fs/fs_balloc.c:21-24 | setting one bitmap bit marks exactly that block used |
| FileTree.LeafOfInjective | kernel/fs/fs_readi.c:17-65 | different block indices lead to different places of the direct and indirect trees |
| FileTree.LeafOfOnto | kernel/fs/fs_readi.c:17-65 | every place for a data block in the twelve slots and the trees below them is that of some block index, so an inode maps exactly MAXFILE blocks |
| FileTree.TreesAreDisjoint | kernel/fs/fs_writei.c:23-96 | a block is reached from one inode at one place only: all block trees are pairwise disjoint |
| FileTree.SlotLinkKeepsTree | kernel/fs/fs_writei.c:26-33 | storing a newly allocated block in an empty address slot keeps every tree well formed and disjoint |
| FileTree.ChildLinkKeepsTree | kernel/fs/fs_writei.c:36-41 | storing a newly allocated block in an empty entry of an indirect block does too |
| FileTree.HoldsFilesGrew | kernel/fs/fs_writei.c:22-96 | allocation keeps the content of every file |
| FileTree.HoldsFilesWritten | kernel/fs/fs_writei.c:98-110 | patching one data block changes the content of its file there and of no other file |
| FileTree.InodeWriteBack | kernel/fs/fs_writei.c:113-116 | writing the inode back makes the disk consistent with the new content |
| FileTree.FileIsContent | kernel/fs/fs_readi.c:2-86 | the bytes reached through the trees are the abstract content of a file without holes |
| FileTree.ContentIsFile | kernel/fs/fs_readi.c:2-86 | that content is the only one the trees describe |
| FileSystem.Volume.Balloc | kernel/fs/fs_balloc.c:14-32 | the first free block is marked and zeroed; it fails only when the bitmap is full, changing nothing |
| FileSystem.Volume.ClaimBlock | kernel/fs/fs_balloc.c:23-26 | the bit set, the bitmap written back, the block zeroed, all else unchanged |
| FileSystem.Volume.SlotForWrite | kernel/fs/fs_writei.c:26-33 | an address slot is filled when empty; every file keeps its content |
| FileSystem.Volume.EntryForWrite | kernel/fs/fs_writei.c:34-41 | an entry of an indirect block is filled when empty; every file keeps its content |
| FileSystem.Volume.BlockForWrite | kernel/fs/fs_writei.c:23-96 | the block of that index, through direct, single, double or triple indirection, allocating exactly what is missing on the way |
| FileSystem.Volume.Iget | kernel/fs/fs_readi.c:88-98 | the row of the inode table |
| FileSystem.Volume.Iupdate | kernel/fs/fs_readi.c:101-114 | the inode in its slot of its block, nothing else |
| FileSystem.Volume.PatchBlock | kernel/fs/fs_writei.c:98-110 | a read-modify-write that changes m bytes of one block |
| FileSystem.Volume.WritePiece | kernel/fs/fs_writei.c:22-111 | one turn of the loop patches the file by its piece and keeps all other files and the trees |
| FileSystem.Volume.WriteRange | kernel/fs/fs_writei.c:22-111 | the whole loop patches the file by all n bytes |
| FileSystem.Volume.Writei | kernel/fs/fs_writei.c:6-119 | a successful write makes the content old[..off] + src + old[off+n..] and changes no other file and no invariant; a range outside the file or its largest size is refused without effect; the kernel stops exactly when fewer blocks are free than positions on the way to the range lack one |
| FileSystem.DiskFills | kernel/fs/fs_writei.c:22-111 | whether an allocation goes through, counted before it begins |
| FileSystem.FileBlock | kernel/fs/fs_readi.c:16-84 | below its size a file has no hole, and each block holds its bytes |
| FileSystem.Volume.BlockForRead | kernel/fs/fs_readi.c:17-68 | the block of that index, or 0 |
| FileSystem.Volume.ReadPiece | kernel/fs/fs_readi.c:16-84 | one turn of the loop copies exactly its part of the file |
| FileSystem.Volume.Readi | kernel/fs/fs_readi.c:2-86 | exactly the requested slice of the content, cut at its end, and nothing beyond it in the buffer |
| FileSystem.Add32 | kernel/fs/fs_readi.c:11-13 | the test that the 32-bit sum is less than a summand holds exactly when the sum has wrapped, and otherwise the sum is exact |
| Directory.MatchIsEquality | kernel/fs/fs.c:144-152 | the comparison loop accepts exactly the stored name that equals the path element cut to 27 bytes |
| Directory.FoundUnderItsOwnName | kernel/fs/fs_helpers.c:16-26 | a name is found under itself if and only if it is shorter than DIRSIZ: mkfs stores 28 bytes, skipelem looks for 27 |
| Directory.DirentFields | usr/mkfs.c:254-260 | an entry written by dir_add reads back its inode number and name field |
| Directory.ScanBufferIndependent | kernel/fs/fs.c:134-158 | what earlier path elements left in the name buffer does not change a lookup |
| PathWalk.SkipElem | kernel/fs/fs_helpers.c:3-32 | of a path made of names and slashes, the buffer gets the first name, cut to 27 bytes and terminated, and the rest is the path of exactly the other names; none when there is no name |
| PathNames.NextOfJoined | kernel/fs/fs_helpers.c:7-31 | for names that are not empty and have no slash, joined with any number of slashes at the ends and at least one between, the next element is the first name and the rest is the other names joined |
| PathNames.SplitPath | kernel/fs/fs_helpers.c:7-31 | every path is made of such names |
| PathNames.SplitOnce | kernel/fs/fs_helpers.c:7-31 | and of no other names |
| PathNames.WalkFollows | kernel/fs/fs.c:124-168 | the walk over a path visits exactly its names, one after another |
| PathNames.HostWalkDescends | kernel/fs/fs.c:124-168 | the walk over a host tree reaches the one node that descending through the names of the path leads to, by the first entry of each name cut to 27 bytes, and misses when there is none |
| PathWalk.NamesMatch | kernel/fs/fs.c:144-152 | the byte comparison up to the first terminator |
| PathWalk.FindEntry | kernel/fs/fs.c:134-158 | the first entry that matches, skipping free ones, or 0 |
| PathWalk.OpenPath | kernel/fs/fs.c:111-170 | the inode that following the names of the path through the directory contents leads to, or 0 when one is missing or not in a directory; says exactly when an entry leads out of the inode table |
| PathWalk.InitFs | kernel/fs/fs.c:100-109 | the superblock is read from block 1 and refused exactly when the magic number is wrong |
| HostTree.ScanIsIndexOf | usr/mkfs.c:254-319 | searching a written directory finds the first host entry whose name is the element cut to 27 bytes, and its inode number, or nothing |
| HostTree.WalkIsHostWalk | kernel/fs/fs.c:124-168 | walking any path on the image is walking it in the host tree with each element cut to 27 bytes, and never leaves the inode table |
| HostTree.RepresentsFrame | usr/mkfs.c:267-322 | a subtree stays represented while its own inodes do |
| Mkfs.Image.Format | usr/mkfs.c:337-353 | an empty consistent image with exactly the reserved blocks marked |
| Mkfs.Image.BmapSet | usr/mkfs.c:97-102 | exactly one bit of one bitmap block is set |
| Mkfs.Image.Balloc | usr/mkfs.c:105-113 | hands out next_datablock; the bitmap stays set exactly below it |
| Mkfs.Image.BlockForAppend | usr/mkfs.c:160-234 | the block of that index, allocating what is missing, every file kept |
| Mkfs.Image.AppendLoop | usr/mkfs.c:157-245 | the loop appends all data to the file content with exactly the blocks the new size needs; it gives up only when these exceed the image or the size exceeds an inode |
| Mkfs.Image.Iappend | usr/mkfs.c:153-249 | the content grows by exactly the data, taking exactly the blocks that needs; no other file changes |
| Mkfs.Image.Ialloc | usr/mkfs.c:116-133 | the next inode number, an empty inode of the kind asked for |
| Mkfs.Image.DirAdd | usr/mkfs.c:254-260 | the directory grows by one entry |
| Mkfs.Image.AppendFile | usr/mkfs.c:304-316 | reading and appending in 4096-byte pieces stores the whole file |
| Mkfs.Image.AddEntry | usr/mkfs.c:275-319 | one host entry becomes an inode, a directory entry and its whole subtree, numbered in order |
| Mkfs.Image.PopulateDir | usr/mkfs.c:267-322 | the directory and everything below it represent the host directory, with exactly the blocks they need; it gives up only when the host directory needs more inodes or blocks than are left |
| Mkfs.BuildImage | usr/mkfs.c:324-361 | succeeds if and only if the host tree needs no more inodes and no more blocks than there are, and then the image is consistent, represents the tree and has used exactly those |
| Mkfs.TooBigIsTooMany | usr/mkfs.c:231-234 | a file or directory too large for an inode needs more blocks than the image has, so running out of blocks always comes first |
| BlockCount.BlocksOfLeaves | usr/mkfs.c:160-234 | the positions on the way to the first n data blocks of a file are n plus a closed form for the pointer blocks, through all three levels of indirection |
| BlockCount.BetweenIsFirst | usr/mkfs.c:160-234 | a position is on the way to the first n data blocks if and only if the first data block below it is one of them |
| BlockCount.PathOfLeaf | kernel/fs/fs_writei.c:23-96 | the positions the write path goes through for a block, level by level |
| BlockCount.TightGrows | usr/mkfs.c:157-245 | a file that grows takes exactly as many blocks more as its new size needs |
| BlockCount.OwnedCount | kernel/fs/fs_balloc.c:14-32 | as many blocks are taken as positions have one, and every block of the data area when the bitmap is full |
| PathWalk.SuperBlockAgrees | usr/mkfs.c:339-347 | the kernel reads back the superblock mkfs writes |
| PathWalk.FirstFreeBlock | usr/mkfs.c:104-113 | on an image the first free block, which the kernel allocates first, is next_datablock |
| PathWalk.OpenOnImage | kernel/fs/fs.c:111-170 | mounting a disk that represents a host tree and opening any path reaches the inode of the host node of that path, or nothing when there is none |
| FreshImage.BuildAndOpen | usr/mkfs.c:324-361 | from any host tree that fits, and only those: the image is built, the kernel mounts it, opens any path and reads exactly what the names in the path lead to in the host tree - the bytes of the file, or every entry of the directory under its name - and nothing where they lead nowhere; its first allocation is the block after those the tree needs, failing only when it needs all |
| FreshImage.ReadWhole | kernel/fs/fs_readi.c:2-86 | a file read from 0 to its size is its whole content |
| Sv39.MakePteReads | kernel/memory/memory.h:15-22 | an entry built by shifting and or-ing gives back its page number and its permission bits (Sv39, section 4.4) |
| Sv39.UserIndices | kernel/memory/memory.h:22 | a user page is named by its two lower indices below one root entry |
| Mmu.WalkFinds | kernel/memory/memory.h:10-22 | the three-level walk of the hardware, on byte addresses and in plain arithmetic, finds at every user address the frame and the rights of the entry the kernel keeps for its page, and faults where there is none |
| Mmu.UserRange | kernel/proc/proc.c:108-124 | the user range is the addresses from 0x40000000 up to 0x80000000 |
| Memory.ChainUnique | kernel/memory/memory.c:22-56 | the links in memory determine the free list: two lists threaded by the same words from the same head are the same list |
| Memory.PageAllocator.InitFreeRange | kernel/memory/memory.c:62-69 | all whole pages of the range are free |
| Memory.PageAllocator.Kfree | kernel/memory/memory.c:32-43 | the page joins the front of the list; no other page is touched |
| Memory.PageAllocator.Kalloc | kernel/memory/memory.c:49-56 | the first free page leaves the list, or null exactly when there is none |
| PageTables.LinkKeepsOwned | kernel/memory/memory.c:81-90 | linking a zeroed page as a new table gives it one role and changes nobody else's |
| PageTables.FrameSetKeepsOwned | kernel/memory/memory.c:106-113 | setting a leaf moves exactly one page to its new role |
| PageTables.MapAfterWalk | kernel/memory/memory.c:98-120 | map_pages on one page changes one translation of one process |
| PageTables.UnmapKeepsOwned | kernel/system/syscall.c:520-529 | clearing a leaf frees exactly its private frame |
| AddressSpace.Machine.Walk | kernel/memory/memory.c:78-93 | the last-level table of the address; without alloc nothing changes, with alloc no translation does |
| AddressSpace.Machine.MapPage | kernel/memory/memory.c:98-120 | one new translation with the permissions asked for, or out of tables, or a remap of a page already mapped |
| AddressSpace.Machine.UnmapPage | kernel/system/syscall.c:520-529 | one translation goes, and its frame is freed unless shared |
| AddressSpace.Machine.FreewalkLevel | kernel/proc/proc.c:195-211 | frees exactly the tables and private frames below a table and the table itself, each once |
| FreeSpace.DropKeepsPartition | kernel/proc/proc.c:214-234 | giving back all of a process's pages keeps the one-role partition |
| AddressSpace.Machine.FreeUserPages | kernel/proc/proc.c:214-234 | exactly the root, the table nodes and the private frames of the process become free; no page of anybody else and no page outside the pool is touched |
| Ownership.ExactlyOneRole | kernel/memory/memory.c:32-120 | while no page is lost, every page of the pool is on the free list, the kernel's, or at exactly one place of exactly one process |
| MemoryRuns.RunCalls | kernel/system/syscall.c:238-532 | over any run of brk, mmap, munmap, fork, exit and exec calls every step says what it did, address by address through the hardware walk, or why it could not; only the last one may stop the kernel, with a cause of its own or with no page left; at most one page is lost for each call that found no page table, and without such a call every page has exactly one role |
| MemoryRuns.Perform | kernel/system/syscall.c:238-532 | what a call has done to memory, or its cause: a page mapped already, an end above the user range, two regions sharing a page, or no page left; for want of a table page, the moment when every free page was in the tables |
| MemoryRuns.ExecSpace | kernel/proc/loader.c:99-171 | the new space maps exactly the stack and the segments, the old space is given back and nobody else's pages change; fails only when no page is left or two of the regions share one |
| MemoryRuns.MapsReach | kernel/proc/loader.c:99-171 | then the hardware finds every address of the stack and the segments, for reading, writing and running, and no other user address |
| Fork.NewPage | kernel/proc/proc.c:88-97 | one zeroed page, or none left |
| Fork.Protect | kernel/proc/proc.c:108-124 | a new root that copies the kernel's entries and maps no user page |
| Fork.CloneSharedPage | kernel/proc/proc.c:291-300 | a shared page is mapped in the child to the same frame |
| Fork.ClonePrivatePage | kernel/proc/proc.c:302-305 | a private page is copied to a frame of the child's own |
| Fork.CloneUserPages | kernel/proc/proc.c:283-308 | the child translates exactly the parent's user addresses, with the same permissions and contents, private frames apart and shared frames the same |
| Fork.CloneIsSameView | kernel/proc/proc.c:283-308 | through its tables the hardware finds, at every user address, the same bytes and rights for the child as for the parent, or a fault for both |
| Fork.WritesStayPrivate | kernel/proc/proc.c:302-305 | a write to a private page of one process changes neither what any other process translates nor what it reads |
| Fork.ForkSpace | kernel/proc/proc.c:329-343 | a full copy, or no page for a table: then every free page was in the child's tables or is the one page lost, and all the others are given back |
| Fork.ForkThenExitRestores | kernel/proc/proc.c:246-276 | terminating the child of a successful fork restores the role of every page, so the same set is free |
| UserMemory.PageUpRounds | kernel/system/syscall.c:242 | an address is rounded to the first page boundary at or above it, unless that passes 64 bits |
| UserMemory.BadRangeMeans | kernel/system/syscall.c:515-518 | while the end does not pass 64 bits, munmap refuses exactly the empty ranges and those not inside 0x40000000 to 0x80000000 |
| UserMemory.Brk | kernel/system/syscall.c:238-254 | every address from the old end up to the new break can be read, written and run; the heap grows by fresh zeroed private pages up to the rounded break and never shrinks; it stops the kernel only without free pages, on a page already mapped or above the user range; a heap outside the user range is told apart exactly |
| UserMemory.MmapBase | kernel/system/syscall.c:468-479 | an address the kernel chooses lies directly below the last one, above the heap and inside the user range, and there is none exactly when that does not fit; an address the caller chooses is rounded up |
| UserMemory.MapRange | kernel/system/syscall.c:494-504 | each page of the range gets its translation; other addresses and processes keep theirs |
| UserMemory.Mmap | kernel/system/syscall.c:459-508 | every address of the length asked for, from the answer on, can be used as the permissions say; the mapping is of fresh or device pages over exactly the rounded range; refused without effect exactly for a range that does not fit; later -1 only without a page for a table, with one page lost exactly when the pages are fresh; panic only without free pages or on a page already mapped; a range below the user range is told apart exactly |
| UserMemory.Munmap | kernel/system/syscall.c:510-532 | no address of the range can be used afterwards, unless an entry that is no leaf stopped the call on the way; private frames become free and no other translation changes |
| ProcFamily.ListedOnce | kernel/proc/proc.c:51-77 | in every reachable table a pid is listed once, by one process |
| ProcFamily.EndKeeps | kernel/proc/proc.c:246-269 | a process that ends records its status and keeps every family and delivery invariant |
| ProcFamily.ResetKeeps | kernel/proc/proc.c:30-49 | emptying a slot nobody lists keeps them too |
| ProcFamily.ForkKeeps | kernel/proc/proc.c:310-365 | listing a new child in an empty slot keeps them, with the parent as its creator |
| ProcFamily.TakeKeeps | kernel/proc/proc.c:398-405 | handing a zombie's status to the process that lists it delivers it once, unchanged, to its creator |
| ProcFamily.ResetAbandons | kernel/proc/proc.c:270-275 | resetting a slot leaves a zombie listed by nobody if and only if that slot listed it or nobody did before |
| ProcFamily.TakeAbandonsListed | kernel/proc/proc.c:398-405 | collecting a child abandons exactly the zombies that child lists |
| Processes.AbandonedRun | kernel/proc/proc.c:384-411 | a run in which a slot is lost: a child's child ends, then the child, and the child is collected |
| Processes.SleepsLongEnough | kernel/proc/proc.c:160-175 | a sleeper wakes exactly when its seconds are over if and only if its deadline fits 64 bits or wraps to 0 |
| Processes.SleepsTooShort | kernel/proc/proc.c:413-419 | a sleep of 58 thousand years ends within a second |
| Processes.ProcTable.Terminate | kernel/proc/proc.c:246-276 | the process becomes a zombie when its parent lists it, and otherwise its slot is emptied and exactly the zombies it lists are abandoned; nobody else changes |
| Processes.ProcTable.Exit | kernel/proc/proc.c:279-281 | the current process ends with that status and is not runnable |
| Processes.ProcTable.Kill | kernel/proc/proc.c:367-382 | refuses what is not alive; otherwise ends the target with status 128 + sig % 128 and tells whether it was the caller |
| Processes.ProcTable.Fork | kernel/proc/proc.c:310-365 | fails exactly without a free slot, a free list place, copied pages or a context inside the stack, and then changes nothing; else a runnable child of the caller in the first empty slot |
| Processes.ProcTable.TryWait | kernel/proc/proc.c:384-411 | -1 exactly when there is no such process or it lists no child of the pid asked for (or none at all, for any pid); 0 when the one asked for, or none of them, has ended; else the pid asked for, or the first in the list that has ended: its status goes to its creator, its slot is emptied and exactly the zombies it lists are abandoned |
| Processes.ProcTable.Sleep | kernel/proc/proc.c:413-419 | the current process sleeps until its 64-bit deadline; zero seconds do nothing |
| Processes.ProcTable.Exec | kernel/proc/loader.c:172-178 | a program that replaces itself gets a fresh context at the top of its stack and keeps its place in the family |
| Processes.ProcTable.Schedule | kernel/proc/proc.c:160-192 | saves the context, wakes every sleeper that is due and picks the first runnable slot after the current one, going round: no slot between the two is running; panics exactly when none is |
| Processes.Closer | kernel/proc/proc.c:182-189 | a runnable process that is passed over is strictly closer round the table next time |
| Processes.BoundedBypass | kernel/proc/proc.c:160-192 | over any run, a process runnable at every call is chosen within its distance, at most MAX_PROCS calls |
| Kernel.System.Fork | kernel/proc/proc.c:310-365 | slot, pages and descriptors together: a child with a copy of every page that translates and the same Files, or nothing at all; only want of a page for a table can lose one |
| Kernel.System.ForkPages | kernel/proc/proc.c:329-352 | a copy of the caller's pages, all given back when the context is bad |
| Kernel.System.Terminate | kernel/proc/proc.c:246-276 | no descriptor and no page of the process is left, and its slot is a zombie or empty; nobody else changes |
| Kernel.System.Exec | kernel/system/syscall.c:583-629 | the process keeps its slot and its descriptors; through its own page tables it finds every byte of the file's segments, zeros behind them and the argument block at its stack pointer; it stops the kernel only for arguments over a page, segments that cannot be loaded or no page left |
| ProgramImage.LoadProgramSpace | kernel/proc/loader.c:99-185 | the same for the address space alone: the loader's pages and the argument page are in the frames the new space maps |
| ProgramImage.FillPages | kernel/proc/loader.c:65-83 | filling the frames page by page keeps the pages filled before, every mapping and everybody else's pages |
| ProgramImage.ImageMapped | kernel/proc/loader.c:120-131 | all pages to be filled are mapped to frames of the process's own, and the argument page is no segment's |
| ProgramImage.PageReads | kernel/proc/loader.c:65-83 | bytes stored into words of memory read back |
| ProgramImage.LittleEndian | kernel/proc/loader.c:139-163 | the eight bytes of a word of memory, the least significant first, make up the word |
| Kernel.System.Wait | kernel/proc/proc.c:384-411 | the same answers in the whole system; collecting a child needs neither pages nor descriptors of it to be freed |
| Kernel.CoupledElsewhere | kernel/proc/proc.c:246-365 | when one slot gains or loses a process with its space and descriptors, still exactly the live processes have an address space and the others no descriptor |
| Pipes.PopTakesFirst | kernel/fs/fs.c:64-79 | a read takes the oldest bytes and leaves the rest in order, across wrap-around |
| Pipes.PushAddsLast | kernel/fs/fs.c:81-98 | a write appends behind the waiting bytes, across wrap-around |
| Pipes.ReadKeepsLossless | kernel/fs/fs.c:64-79 | bytes delivered plus bytes waiting stay the bytes accepted |
| Pipes.WriteKeepsLossless | kernel/fs/fs.c:81-98 | so they do when bytes are accepted |
| OpenFiles.StuckIffDuplicated | kernel/fs/fs.c:54-62 | with both ends closed a pipe is still in use if and only if an end had been duplicated, and then no File refers to it any more |
| OpenFiles.UnusedPipeIsNobodys | kernel/fs/fs.c:39-52 | no open File refers to a slot that pipe_alloc may take |
| OpenFiles.FreedIffNeverDuplicated | kernel/fs/fs.c:54-62 | closing the second end frees the pipe if and only if no fs_dup ever counted an end again |
| OpenFiles.CallsSpareStuck | kernel/fs/fs.c:197-302 | no duplication or close changes a pipe kept after both its ends are closed |
| FileCalls.TrafficSparesStuck | kernel/fs/fs.c:64-98 | nor does reading or writing |
| FileCalls.StuckRun | kernel/fs/fs.c:291-302 | a run that loses a pipe: pipe, dup and three closes leave no descriptor and the pipe in use |
| OpenFiles.ClosePipeKeeps | kernel/fs/fs.c:197-217 | closing an end keeps pipes, their counts and the record of their ends in step, whatever the reference counts say |
| OpenFiles.CreateKeeps | kernel/fs/fs.c:304-346 | two free Files and a free slot become one pipe with one reader and one writer |
| FileCalls.FileTables.FsOpen | kernel/fs/fs.c:170-195 | the first free File with one reference, or none when none is free; the counts stay exact if and only if the inode is a file or a directory |
| FileCalls.FileTables.FsClose | kernel/fs/fs.c:197-217 | one reference less; the File and its pipe count go with the last one, duplications being counted on the pipe still; pipes and ends stay in step even when counts are not exact |
| FileCalls.FileTables.FsDup | kernel/fs/fs.c:291-302 | one reference more, counted on the pipe as well, for the end it is |
| FileCalls.FileTables.FsPipeCreate | kernel/fs/fs.c:304-346 | both ends of an empty pipe in a slot that was not in use; fails exactly when every pipe is in use or fewer than two Files are free, and then changes no File |
| FileCalls.FileTables.PipeRead | kernel/fs/fs.c:64-79 | the oldest min(n, count) bytes, removed; -1 unless the File is the read end of a pipe in use |
| FileCalls.FileTables.PipeWrite | kernel/fs/fs.c:81-98 | the first min(n, space) bytes are appended; -1 unless it is a write end with readers |
| FileCalls.FileTables.ReadChunks | kernel/system/syscall.c:150-173 | reading in 4096-byte chunks delivers the same bytes and leaves the same pipe as one read |
| FileCalls.FileTables.WriteChunks | kernel/system/syscall.c:175-197 | writing in chunks accepts the same bytes as one write |
| FileCalls.FileTables.SysOpen | kernel/system/syscall.c:132-148 | the lowest null descriptor for the first free File; fails exactly when the path leads nowhere, no File is free or no descriptor is null; every count is exact afterwards if and only if it failed or the inode is a file or a directory |
| OpenFiles.OpenKeepsUnlessFree | kernel/fs/fs.c:170-185 | a File opened with one reference keeps all counts exact if and only if it is not left marked free |
| FileCalls.FreeInodeRun | kernel/fs/fs.c:29-36 | a run that shares a File: a free inode is opened, the next open gets the same slot, and two descriptors hold a File that counts one reference |
| FileCalls.FileTables.SysClose | kernel/system/syscall.c:199-208 | the descriptor is cleared and its reference given up |
| FileCalls.FileTables.SysDup | kernel/system/syscall.c:360-368 | the lowest null descriptor refers to the same File; fails exactly without an open source or a null place |
| FileCalls.FileTables.SysDup2 | kernel/system/syscall.c:370-385 | the new descriptor refers to the old one's File, and what it held before is closed; the exact result |
| FileCalls.FileTables.SysPipe | kernel/system/syscall.c:327-358 | two descriptors for the two ends of a new empty pipe; fails exactly without an unused pipe, two free Files or two null descriptors |
| FileCalls.FileTables.ForkFds | kernel/proc/proc.c:358-362 | the child holds the parent's Files at the same descriptors, each counted once more |
| FileCalls.FileTables.CloseAll | kernel/proc/proc.c:251-256 | no descriptor of the process is left and nobody else's changes |
| SoundQueue.RingPush | kernel/device/virtio_sound.c:152-159 | storing behind the last entry overwrites none, whatever the 16-bit index has wrapped to (section 2.6 of VIRTIO 1.1) |
| SoundQueue.RingPop | kernel/device/virtio_sound.c:164-181 | the oldest entry is the one at the consumer's index, and the rest stay in order |
| SoundQueue.EnoughFree | kernel/device/virtio_sound.c:330-338 | while a buffer is unused at least four descriptors are free, so three allocations succeed |
| SoundQueue.ClaimKeepsPartition | kernel/device/virtio_sound.c:330-361 | a buffer that takes three free descriptors keeps free descriptors and triples a partition of all sixteen |
| SoundQueue.ReleaseKeepsPartition | kernel/device/virtio_sound.c:169-178 | so does giving them back |
| SoundQueue.FillKeepsPosted | kernel/device/virtio_sound.c:340-361 | filling an unused buffer changes no chain the device may still follow |
| SoundQueue.FinishMoves | kernel/device/virtio_sound.c:161-181 | a completion, in any order, keeps every submission played once or still due |
| SoundDriver.TxQueue.AllocDesc | kernel/device/virtio_sound.c:89-97 | the first free descriptor, or -1 exactly when none is free |
| SoundDriver.TxQueue.AllocThree | kernel/device/virtio_sound.c:328-338 | three different free descriptors: the failing branch is never taken |
| SoundDriver.TxQueue.DeviceTake | kernel/device/virtio_sound.c:152-159 | the device takes the oldest published head and nothing is lost |
| SoundDriver.TxQueue.DeviceComplete | kernel/device/virtio_sound.c:164-181 | the device finds in the chain exactly the bytes submitted with it |
| SoundDriver.TxQueue.DeviceRuns | kernel/device/virtio_sound.c:152-181 | any number of device steps keep both rings and the set of heads in flight |
| SoundDriver.TxQueue.ReclaimOne | kernel/device/virtio_sound.c:164-181 | the oldest completed head gives up exactly its buffer and its three descriptors |
| SoundDriver.TxQueue.Reclaim | kernel/device/virtio_sound.c:161-181 | all heads completed before the call are reclaimed while the device goes on |
| SoundDriver.TxQueue.Fill | kernel/device/virtio_sound.c:340-361 | an unused buffer gets the data and a complete chain; chains in flight stay |
| SoundDriver.TxQueue.SubmitAsync | kernel/device/virtio_sound.c:152-159 | the head is published without overwriting an entry, whatever the device does between the two stores |
| SoundDriver.TxQueue.Write | kernel/device/virtio_sound.c:312-366 | accepts a whole number of frames up to one buffer into a free buffer, or 0 only when all five are in flight and none was completed before the call, or -1 for an unusable request |
| BitStrings.BitReverse16Reverses | usr/libs/libSDL_image/src/stb_image.h:2692-2717 | the four mask-and-shift steps reverse sixteen bits |
| BitStrings.BitReverseReverses | usr/libs/libSDL_image/src/stb_image.h:2719-2725 | reversing the low bits of a number |
| HuffmanCode.FitsIffKraft | usr/libs/libSDL_image/src/stb_image.h:2736-2756 | a length list is accepted if and only if its words claim at most all 16-bit strings (Kraft) |
| HuffmanCode.Ordered | usr/libs/libSDL_image/src/stb_image.h:2739-2754 | code words follow one another by length, then by symbol (section 3.2.2 of RFC 1951) |
| HuffmanCode.PrefixFree | usr/libs/libSDL_image/src/stb_image.h:2727-2772 | no code word is a prefix of another |
| HuffmanCode.Covered | usr/libs/libSDL_image/src/stb_image.h:2832-2836 | every string below the last limit starts with a code word |
| HuffmanCode.SymbolOfWord | usr/libs/libSDL_image/src/stb_image.h:2846-2863 | a symbol's word followed by any bits decodes to that symbol and leaves those bits |
| HuffmanCode.UniquelyDecodable | usr/libs/libSDL_image/src/stb_image.h:2846-2863 | different messages have different encodings |
| HuffmanTable.Huffman.Build | usr/libs/libSDL_image/src/stb_image.h:2727-2772 | accepts exactly by Kraft, and then the fast table, the limits and the ranked list are those of the canonical code |
| HuffmanTable.Huffman.StartCodes | usr/libs/libSDL_image/src/stb_image.h:2736-2756 | first codes, limits and list positions of every length; rejects exactly when some length has too many words |
| HuffmanTable.Huffman.FillTables | usr/libs/libSDL_image/src/stb_image.h:2757-2770 | every symbol is in the ranked list and, when short, at every index its word starts |
| HuffmanTable.FastGrows | usr/libs/libSDL_image/src/stb_image.h:2763-2767 | filling a symbol's indices overwrites no other symbol's |
| Inflate.SlowHit | usr/libs/libSDL_image/src/stb_image.h:2835-2843 | the slow path's position is that of the one symbol whose word starts the window |
| Inflate.SlowMiss | usr/libs/libSDL_image/src/stb_image.h:2836-2837 | at or above the last limit no word matches |
| Inflate.Reader.FillBits | usr/libs/libSDL_image/src/stb_image.h:2805-2815 | more than 24 bits are ready and the bit stream is unchanged |
| Inflate.Reader.Receive | usr/libs/libSDL_image/src/stb_image.h:2817-2825 | the next n bits, least significant first, are consumed |
| Inflate.Reader.Decode | usr/libs/libSDL_image/src/stb_image.h:2846-2863 | the symbol whose word starts the stream, consuming exactly that word; -1 only when there is none or the input ends |
| Inflate.Reader.DecodeSlowly | usr/libs/libSDL_image/src/stb_image.h:2827-2844 | the same for words longer than nine bits |
| Inflate.CopyRepeats | usr/libs/libSDL_image/src/stb_image.h:2932-2947 | a back reference keeps all that was written and repeats the byte dist before |
| Inflate.CopyOnly | usr/libs/libSDL_image/src/stb_image.h:2932-2947 | those two facts determine the output |
| Inflate.Reader.CopyBack | usr/libs/libSDL_image/src/stb_image.h:2932-2947 | the run, the overlapping and the plain copy all give that output |
| LengthCodes.LengthTable | usr/libs/libSDL_image/src/stb_image.h:2887-2893 | section 3.2.5 of RFC 1951: the lengths of a symbol end where those of the next begin, from 3 up to 258, with (z - 4) / 4 extra bits from the ninth on and none for 258 |
| LengthCodes.DistTable | usr/libs/libSDL_image/src/stb_image.h:2895-2899 | so do the distances, from 1 up to 32768, with (d - 2) / 2 extra bits from the third on |
| LengthCodes.LengthOnce | usr/libs/libSDL_image/src/stb_image.h:2887-2893 | every length from 3 to 257 has exactly one symbol with extra bits, 258 has the last symbol without any, and no symbol stands for any other length |
| LengthCodes.DistanceOnce | usr/libs/libSDL_image/src/stb_image.h:2895-2899 | every distance from 1 to 32768 has exactly one symbol with extra bits, and no symbol stands for any other |
| Inflate.Reader.ParseBlock | usr/libs/libSDL_image/src/stb_image.h:2901-2949 | the loop computes the block as a function of the bit string: same output, same bits left, same errors |
| Inflate.TokensReadBack | usr/libs/libSDL_image/src/stb_image.h:2901-2949 | for any accepted pair of codes, decoding what symbols and extra bits are written as gives what they stand for and leaves the bits that follow |
| Inflate.Codable | usr/libs/libSDL_image/src/stb_image.h:2901-2949 | a repetition of 3 to 258 bytes from 1 to 32768 back can be written whenever its two symbols have code words |
| Inflate.RoundTrip | usr/libs/libSDL_image/src/stb_image.h:2901-2949 | decompression inverts compression: bytes and repetitions given by length and distance, written with any symbols that stand for them, decode to those bytes and those copies, and the bits that follow are left |
| Inflate.BlockReadsBack | usr/libs/libSDL_image/src/stb_image.h:2901-2949 | so the loop unpacks any written block, given a few bits before the end |
| NyanCodec.XrgbBytes | usr/apps/desktop/boot.c:464-473 | re-quantising the screen bytes of a decoded colour gives the colour |
| NyanCodec.Requantised | usr/nyanpack.c:48-53 | re-quantising the widened channels is the identity |
| NyanCodec.WidenIsBrightness | usr/apps/desktop/boot.c:464-473 | a widened channel is the same share of 255 as before of 31 or 63, to within one unit |
| NyanCodec.ColourIsNear | usr/apps/desktop/boot.c:464-473 | after quantising and widening, red is the third byte of the screen word, green the second and blue the first, each off by less than one step (8, 4 and 8), black and white exact |
| NyanCodec.ParsePayload | usr/nyanpack.c:43-46 | the runs written read back |
| NyanCodec.EncodeFrame | usr/nyanpack.c:67-89 | a payload of at most four bytes per pixel whose runs spell the quantised frame, none empty and none shorter than it could be |
| NyanPlayer.DrawRun | usr/apps/desktop/boot.c:475-512 | exactly the next `count` pixels of the frame are painted where on screen, and nothing else |
| NyanPlayer.DecodeFrame | usr/apps/desktop/boot.c:514-539 | paints as many pixels as the payload has, at most a frame, pixel k at row k / width and column k % width; true exactly when the frame is full |
| NyanPlayer.FrameShown | usr/apps/desktop/boot.c:514-539 | decoding an encoded frame shows every pixel at its place in its quantised colour, each channel within 8, 4 and 8 of the frame's own byte, black and white exact, and uses the payload up exactly |
| InputRing.TakeKeepsOrder | kernel/device/virtio_input.c:144-164 | taking the first event of a class out of the middle keeps every class in order |
| InputRing.Ring.Enqueue | kernel/device/virtio_input.c:47-55 | one event more at the end, or dropped when 127 wait |
| InputRing.Ring.RemoveAt | kernel/device/virtio_input.c:60-70 | exactly that event goes and the others keep their order, across wrap-around |
| InputRing.Ring.GetEvent | kernel/device/virtio_input.c:137-142 | the oldest event, or none |
| InputRing.Ring.GetFiltered | kernel/device/virtio_input.c:144-164 | the first event the filter admits, removed alone: without the pointer only keys below 256, without the keyboard never one of those, and no wanted event is left before it, or at all when there is none |
| Loader.PagesAreLoaded | kernel/proc/loader.c:61-84 | whole pages done mean every byte of the segment is the file's or zero |
| Loader.CopyPage | kernel/proc/loader.c:65-83 | one page gets its share of the file and zeros, also for an unaligned start |
| Loader.Space.LoadSegment | kernel/proc/loader.c:46-85 | user memory holds the file bytes up to p_filesz and zeros up to p_memsz; succeeds exactly for possible sizes and pages not yet mapped |
| Loader.Space.LoadProgram | kernel/proc/loader.c:42-87 | succeeds exactly when all PT_LOAD segments have possible sizes, fresh pages and no page in common, and then all of them hold at once; max_brk is the highest end rounded up |
| UserStack.BuildArguments | kernel/proc/loader.c:107-166 | succeeds exactly when the block fits one page and then lays out argc, argv and envp at an aligned stack pointer |
| UserStack.ArgumentsReadBack | kernel/proc/loader.c:141-163 | following the stored pointers gives back exactly the argument and environment strings |
| UserStack.ReadBack | kernel/proc/loader.c:150-153 | a copied string reads back up to its terminator |

## Left out

- FileSystem.Volume.Writei: when the disk is full the source panics; the model returns with `ok` false, exactly then, and says nothing about the half-written file.
- Inflate.Reader.ParseBlock: input that ends inside a symbol is an error here, where the source reads on past its buffer; distance symbols 30 and 31, for which the source copies bytes it never wrote, stop with an outcome of their own.
- Inflate.Reader.FillBits: stops at the end of the memory it was given and reports it, where the source does not look.
- UserMemory.Mmap: a range below the user range, which the source does not refuse, would be mapped in tables shared with the kernel; the model says exactly when that happens and does not follow it. The same holds for UserMemory.Brk with a heap that begins outside the user range.
- FileCalls.FileTables.FsOpen: the path is represented by the kind of inode it leads to. After an open that shares a slot only the pipes' invariants are followed further.
- SoundDriver.TxQueue.Write: the source's answer for descriptors that run out is not modelled, since AllocThree proves it never happens.
- Processes.ProcTable.Fork: whether the pages could be copied is a parameter here; Kernel.System.Fork supplies it, writing the child's slot after copying its pages, where the source fills it first.
- Kernel.System.Terminate: the reset of the process's display is not modelled.
- Mmu.WalkFinds: the A and D bits, physical memory protection and the privilege mode of the access are not modelled.
- Inflate.RoundTrip: length symbols 286 and 287, which stand for no length, are decoded as the source does (TokensReadBack) but write no item.
- MemoryRuns.ExecSpace: the segments lie in the user range, which the source does not check; the same holds for Kernel.System.Exec.
- MemoryRuns.RunCalls: a run ends at the first call that stops the kernel or maps below the user range.
- PathWalk.OpenPath: an entry whose inode number lies beyond the inode table ends the model's walk, and the model says so, where the source reads an inode from another block.
- Loader.Space.LoadProgram: user memory is a map from page numbers to pages here, which ProgramImage.LoadProgramSpace carries into the frames of a new address space, all of them mapped first, where the source maps and fills page by page; segment bytes must lie in the program buffer.
- Block cache: the 64-bit access clock is unbounded here, and a failed device write (a panic) does not happen; device reads may fail. The file system is modelled on a device whose reads succeed, because its code ignores a failure.
- mkfs: the image is an array of blocks instead of one byte array; directory entries of kinds other than file and directory, which it skips, are not in the host tree; host I/O errors end the program.
- map_pages for ranges of several pages (kernel mappings at boot) and the initial kernel page table; user mappings go page by page in the source too.
- Helper methods that give a name to a part of a longer source function (one turn of a loop, one indirection level) have no counterpart in the source.
- File offsets and names of open Files, lseek, poll, select, stat, ioctl, and reads and writes of disk files through descriptors, which are `Readi` and `Writei`.
- SoundDriver.TxQueue.ReclaimOne: the device does not run inside one turn of the reclaiming loop, where it could only append to the used ring; it runs before and after each turn.
- The translation of mmap protection bits into permissions (the permissions are a parameter) and the sizes of device mappings.
- The signed interpretation of byte and page counts at the top of their range in system calls.
- compute_huffman_codes, stored blocks, zlib headers and the growing of the output buffer (output is unbounded here); PNG, JPEG and the other image formats.
- The control, event and receive sound queues and the block and GPU queues, which are synchronous; queue setup; memory barriers and MMIO.
- Interrupt entry, context switching in assembly, timer, UART, PLIC; copying to and from user pointers; the desktop and the demo programs.
- Dirty-rectangle merging of the GPU driver and the desktop.
