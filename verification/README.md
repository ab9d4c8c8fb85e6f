# Verified model of the NBOS1 kernel

NBOS1 is a small 32-bit x86 kernel. This project models four of its parts in Dafny and
proves what they are relied on for:

* **Pages and address spaces.** Physical memory is one flat array of 32-bit words. The
  free-page list lives inside the free pages; page directories, page tables and user pages
  lie in the same array. Paging from boot to user mode, `page_map`, the deep copy made by
  fork, the teardown of an address space, and the isolation of processes are proved on it.
  `Words.Translate` follows 32-bit paging as in section 4.3 of the Intel SDM, volume 3A.
* **The file system.** The disk is an array of 512-byte blocks (block n is sector 300 + n).
  Superblock, inodes, directory items and the bitmap are decoded from bytes, little endian.
  Formatting, inode and block allocation, file reads and writes and directory lookup are
  proved against ownership invariants and a flat file of bytes.
* **Processes.** Pid allocation, fork, exit, wait and the timer on the table of 20 slots.
  Interrupts are off in all of them, so each is one step.
* **Sector transfers.** Any number of threads in `k_operatesector`, interleaved one port
  access or one lock exchange at a time.

| file | contents |
|---|---|
| `Words.dfy`, `FreeList.dfy`, `PhysicalMemory.dfy` | words, paging entries, translation; the intrusive list; the page primitives |
| `Paging.dfy`, `PageRuns.dfy` | `init_memory`, `page_map`; every run of page requests |
| `Boot.dfy` | `entry` and `switch_to_user` |
| `AddressSpace.dfy`, `Fork.dfy`, `ForkMeaning.dfy` | an address space as its list of frames; `copy_process_mem`; what the copy means |
| `Teardown.dfy` | `free_process_user_mem`, page balance of fork and exit |
| `Isolation.dfy`, `ZeroStores.dfy`, `IsolationRuns.dfy` | all live processes together: one step, the stores of process 0, every run |
| `Processes.dfy`, `ProcessRuns.dfy` | the process table and its runs |
| `SectorIO.dfy` | lock, device and threads |
| `Bytes.dfy`, `Layout.dfy`, `BlockDevice.dfy` | bytes and blocks, on-disk structs, the disk |
| `Inodes.dfy`, `Bitmap.dfy`, `FileData.dfy` | inode chain, block bitmap, file contents |
| `Strings.dfy`, `Directory.dfy` | the routines of str.c, directory insertion and lookup |
| `FsInvariant.dfy`, `FsInit.dfy`, `FsRuns.dfy` | who owns which block, `init_file`, every run of file-system requests |
| `FileCreation.dfy` | `sys_creat` in the root directory |

Where the code does not do what its comments or its callers expect, the code is modelled as
it is, and the exact condition is proved:

* `sys_exit` frees the page directory only; fork followed by exit gives all pages back if
  and only if the parent maps nothing in its user half (`Teardown.ForkThenExit`).
* `sys_wait` of a process other than 0 reports "no child" if and only if there is exactly
  one child, and never returns when there is none (`ProcessRuns.WaitOfOthers`); a run of
  thirteen system calls and ticks reaches a zombie that is not reaped that way
  (`ProcessRuns.OnlyChildNotReaped`).
* An exit of process 0 would retire process 0 if and only if no slot is free
  (`ProcessRuns.ExitOfProcessZero`), and a fork that draws a pid goes through if and only if
  one is (`ProcessRuns.ForkPossibleIff`); nineteen forks lead to such a full table
  (`ProcessRuns.FullTable`).
* With ticks alone only the two live slots with the lowest indices ever run
  (`ProcessRuns.TicksAlternate`).
* `page_map` leaves other pages alone if and only if no second directory entry names the
  same table; boot makes entries 0 and 768 share one (`Paging.MapLocalIff`,
  `Boot.BootTranslation`). Boot also maps the frame right behind RAM.
* `update_dataBlockBit` is right if and only if the bit was clear or was the only one set in
  its byte (`Bitmap.UpdateExact`).
* `allocBlock` hands out a block of the file system if and only if one is free; otherwise it
  reports success and hands out block 701 again and again (`Bitmap.FreshIffRoom`,
  `Bitmap.HandedOutOk`).
* `writeFile` on an empty slot writes into the superblock: a round spares it if and only if
  the slot is in use or the bytes are the same (`FileData.SuperblockKeptIff`), a call whose
  last slot is empty if and only if the tail is the same (`FileData.WriteKeepsSuperblockIff`),
  and the data is read back if and only if no slot was empty or the tail is zero and its
  slot got the block (`FileData.WriteThenRead`). `FsRuns.WriteBehindFirstBlock` is the
  smallest case after formatting: one block, 513 bytes.
* A read compares only its offset with the size of the file: the last byte returned lies at
  or behind the end if and only if the offset does not lie behind it, the range goes beyond
  it and meets no empty slot (`FileData.ReadFileAtOffset`).
* `sys_creat` neither enlarges the directory nor writes its inode back, so the next creation
  puts its item over the last one. The first name is then missing if and only if its bytes
  occur nowhere in the directory's block (or the directory is empty); they occur at the item
  itself if and only if the first name is a prefix of the second
  (`FileCreation.CreateTwice`). `FileCreation.FirstFileLost` is the case of "/a" and "/b" on
  a fresh disk.
* Process 0's user half maps the first 4 MB of memory, so its stores can hit anyone, the
  kernel and the free list: all others are undisturbed, and the kernel's data structures
  sound, if and only if the store passes the test `ZeroStores.SafeStore` on the frame, the
  word and the value (`ZeroStores.ZeroStoreIff`). `IsolationRuns.FirstChildInReach` shows
  the first child's page directory within its reach.
* Freeing a page twice closes a circle (`FreeList.DoubleFreeIff`).
* `writeDirectory` does not test the length of a name; `Directory.LongNameIff` says which
  long names spoil their item.
* Two directory items overlap if and only if the first one had to move to the next block
  (`Directory.ItemsOverlapIff`).
* `strmatch` has no return value if and only if nothing matches and the last byte starts
  like the name (`Strings.StrMatch`).
* A sector number reaches the device unchanged if and only if it is below 2^24
  (`SectorIO.SectorReached`).

## Model

| member | source | states |
|---|---|---|
| Words.Entry | memory.c:124-148 | an entry names the frame, is present and writable, carries the privilege asked for, and is zero in every other bit |
| Words.Fields | memory.c:124-148 | present is bit 0, read/write bit 1, privilege bit 2, the frame starts at bit 12: the fields and the nine bits between make up the entry |
| PhysicalMemory.Ram.Fill | memory.c:69-73 | the first size bytes of the page hold the byte, the rest of it and every other page stay |
| PhysicalMemory.Ram.MemCopy | memory.c:393-398 | the first size bytes of the destination are those of the source, the rest and every other page stay |
| PhysicalMemory.Ram.AllocPage | memory.c:77-85 | the first page leaves the list, the rest stays a list, memory unchanged |
| PhysicalMemory.Ram.FreePage | memory.c:87-93 | the page is put in front of the list through its own word 0 |
| FreeList.ChainPop | memory.c:79-81 | the word in the first page leads through exactly the remaining pages |
| FreeList.ChainPush | memory.c:89-91 | linking a page that is not on the list gives a list again |
| FreeList.DoubleFreeIff | memory.c:87-93 | what free_page leaves is a list again if and only if the page was not on it already |
| Paging.InitMemory | memory.c:46-64 | the list is exactly the pages whose first byte lies at or behind the kernel's end, up to the end of RAM, in address order; no word below the kernel's end changes |
| Paging.EnsureTable | memory.c:165-172 | an absent directory entry gets a fresh zeroed table; tables stay unshared and off the free list |
| Paging.PageMap | memory.c:157-182 | the page leads to the given frame with the privilege, the table entry and a new directory entry holding exactly address, privilege, read/write and present; no other page's translation changes; invariants kept |
| Paging.MapTranslates | memory.c:175-181 | translation of every address after one entry has been written |
| Paging.MapLocalIff | memory.c:157-182 | other pages keep their translation if and only if the table is not shared |
| PageRuns.Serve | memory.c:77-182 | one request does exactly its step: alloc takes the first free page, free puts the page in front, a store changes one word, page_map redirects one page and takes a table only if it lacks one; a skipped request changes nothing |
| PageRuns.StepKeeps | memory.c:77-182 | each step keeps the list, the partition of the pool, and directory and tables out of the hands of callers |
| PageRuns.EveryRun | memory.c:46-182 | on every sequence of requests: the list stays a list, free, held and table pages partition the pool, no request is given a page that an earlier one was given and nobody returned, and the pages out are those not returned |
| PageRuns.Run | memory.c:46-182 | the loop over the requests makes such a run, from the memory at the start to the memory at the end |
| PageRuns.BootThenRun | main.c:88-108 | the same from reset: entry, init_memory, switch_to_user, then any requests of process 0 |
| Boot.BuildBootTables | entry.c:20-55 | the loops leave exactly the boot directory and tables |
| Boot.BootTranslation | entry.c:20-55 | base + x maps to x up to and including PHY_SIZE, supervisor only; the low 4 MB share the table of the kernel half |
| Boot.PrivateFirstTable | main.c:25-46 | entry 0 gets a private user copy of its table |
| Boot.SwitchToUser | main.c:25-50 | three pages taken; process 0 sees the kernel half as before, the low 4 MB and its stack; no table shared; ready to fork |
| Boot.BootToUser | main.c:95-108 | the same from zeroed tables through init_memory to user mode; behind the list is word 0 of the last page, as it was before |
| Boot.UserFrameCount | main.c:25-50 | process 0 maps 1027 frames below the kernel: two tables, 1024 low pages, the stack |
| Fork.CopyPageOf | syscall.c:303-314 | one page is copied to a fresh one and the entry redirected |
| Fork.CloneTable | syscall.c:283-295 | one table is copied to a fresh one and the directory entry redirected |
| Fork.CopyTable | syscall.c:281-317 | one directory entry: table and pages are the next free pages, contents equal |
| Fork.TableStateStep | syscall.c:298-315 | one more page keeps the state of the table copy |
| Fork.DirStateStep | syscall.c:277-318 | one more table keeps the state of the directory copy |
| Fork.CopyProcessMem | syscall.c:262-320 | the free list at the start is directory, tables and pages of the child, in order, then what is left, untouched; nothing else changes |
| ForkMeaning.ChildUserHalf | syscall.c:277-318 | same user addresses mapped, to fresh user-writable frames with equal contents |
| ForkMeaning.ChildKernelHalf | syscall.c:271 | entries 0x300 to 0x3ff and kernel translations carried over |
| ForkMeaning.ParentUnchanged | syscall.c:262-320 | the parent's translations and every frame that was not free are unchanged |
| ForkMeaning.ChildPagesApart | syscall.c:306-313 | two pages of the child never share a frame |
| ForkMeaning.ChildOwned | syscall.c:262-320 | the child owns its frames; fork takes exactly 1 + tables + mapped pages |
| ForkMeaning.ChildForkable | syscall.c:262-320 | the child meets fork's own precondition |
| Teardown.FreeTable | syscall.c:372-394 | the pages of a table and then the table are freed, although freeing overwrites word 0 |
| Teardown.FreeProcessUserMem | syscall.c:357-401 | every page and table of the user half is freed, once, in walking order |
| Teardown.FreedElements | syscall.c:363-396 | what teardown frees is what the address space is built from |
| Teardown.ForkThenTeardown | syscall.c:357-401 | fork, teardown and freeing the directory give back exactly the pages taken |
| Teardown.ForkThenExit | syscall.c:511-513 | fork and exit lose every table and page of the child; nothing is lost if and only if there was none |
| Isolation.ForkKeeps | syscall.c:262-320 | fork of any live process keeps all address spaces disjoint and off the free list, and the list linked |
| Isolation.ExitKeeps | syscall.c:513 | exit keeps the others' address spaces sound and the free list linked |
| Isolation.StoreTarget | syscall.c:292 | a page a user program can write to is one of its own and nobody's table |
| Isolation.StoreIsPrivate | syscall.c:303-314 | since every user page of a forked process is a fresh one of its own, a store by its program changes no translation of any process, no frame of another process or of the kernel image and no link of the free list |
| Isolation.StoreThenLoad | syscall.c:303-314 | the user half of a forked process is memory: after a store the word stored to reads as the value, every other user address as before |
| ZeroStores.UndisturbedIff | main.c:36-46 | a store by process 0 leaves everyone's translations, frames and the free list undisturbed if and only if it hits no space of another process, no frame of the kernel image, no link of the free list and no entry of process 0 that then means something else (or stores what is there) |
| ZeroStores.SafeKeeps | main.c:36-46 | a store that passes the test keeps the world sound: free list, all address spaces, process 0 ready to fork |
| ZeroStores.ZeroStoreIff | main.c:36-46 | a store by process 0 leaves everyone undisturbed and the world sound if and only if it is harmless in that sense and, when it goes into process 0's directory, the table it names is in RAM, not the directory, not free and nobody's, and the kernel half only changes while process 0 is alone |
| IsolationRuns.EveryRun | syscall.c:262-513 | after any forks, exits, stores by processes other than 0 and safe stores by process 0, no two live processes other than process 0 share a frame, the words in memory still link exactly the free pages, and the kernel image is as it was |
| IsolationRuns.ProcessUndisturbed | syscall.c:262-513 | on every such run a process that neither stores nor exits keeps its frames, every byte in them and all its translations, whatever the others do |
| IsolationRuns.FirstChildInReach | main.c:36-46 | with a kernel that ends within 2 MB process 0 can write to the page directory of its first child, and a store that changes its first word disturbs the child |
| IsolationRuns.BootWorld | main.c:88-108 | booting leaves a sound world with process 0 alone, for any kernel image of frames that begin below the kernel's end |
| IsolationRuns.ForkWorld | syscall.c:262-320 | copy_process_mem is a fork step of the world, down to the head of the free list |
| IsolationRuns.ExitWorld | syscall.c:502-513 | the page release in sys_exit is an exit step of the world, down to the link it writes |
| Processes.ProcessTable.InitPcb | process.c:16-42 | process 0 runs, every other slot is free |
| Processes.ProcessTable.GetPid | process.c:157-177 | terminates; returns the first unused candidate, or -1 if that is 60 |
| Processes.PidLeft | process.c:167-169 | with 20 slots one of the pids 1 to 21 is unused |
| Processes.ProcessTable.Fork | process.c:181-206 | the first free slot becomes RUNNABLE with the new pid and the caller as father |
| Processes.ProcessTable.Tick | interrupt.c:237-262 | the first RUNNABLE slot becomes current and RUNNING, the last one RUNNABLE |
| Processes.ProcessTable.GetPcb | process.c:367-379 | the last slot carrying the pid |
| Processes.ProcessTable.Exit | syscall.c:508-541 | the slot found becomes ZOMBIE, the first RUNNABLE slot becomes current |
| Processes.ProcessTable.HaveChildren | process.c:322-330 | one less than the number of slots with that father |
| Processes.CountIsSize | process.c:322-330 | the count of children is the size of the set of slots with that father |
| Processes.ProcessTable.Wait | syscall.c:454-496 | error, endless loop, or a zombie child of the caller whose slot, and no other, is freed and whose pid is returned |
| ProcessRuns.PidFresh | process.c:157-177 | a pid handed out is in 1 to 59, used by no slot, and the next unused one from the counter on, starting over behind 60; where the counter goes |
| ProcessRuns.ForkInv | process.c:181-206 | fork keeps the table invariant and adds one slot in use |
| ProcessRuns.ForkMakes | process.c:181-206 | the child, runnable and with its father's pid, goes into the first free slot; without a pid only the counter changes |
| ProcessRuns.ForkPossibleIff | process.c:181-206 | a fork goes through if and only if it draws no pid or fewer than 20 slots are in use |
| ProcessRuns.TickInv | interrupt.c:237-262 | a tick keeps the invariant and never revives a zombie |
| ProcessRuns.TickPicks | interrupt.c:237-262 | the first runnable slot becomes current and RUNNING, the last one RUNNABLE, all else stays; nothing changes when no slot is runnable |
| ProcessRuns.ExitFinds | syscall.c:508-541 | exit by a process other than 0 retires the current slot and no other, and the first runnable slot becomes current |
| ProcessRuns.ExitOfProcessZero | process.c:367-379 | exit of process 0 would hit process 0 if and only if no slot is free |
| ProcessRuns.FullTable | process.c:181-206 | nineteen forks after boot no slot is free: pid 20 is drawn, a fork has no slot for it, and an exit of process 0 makes a zombie of process 0 |
| ProcessRuns.ExitPossibleIff | syscall.c:508-541 | an exit finds a successor if and only if it is not by process 0, or some slot that does not become the zombie is RUNNABLE |
| ProcessRuns.WaitInv | syscall.c:454-496 | wait keeps the invariant and frees one slot exactly when it reaps |
| ProcessRuns.WaitReaps | syscall.c:475-490 | a wait that reaps frees the first slot with a zombie child of the caller and no other; the result is that child's pid, in 1 to 59, which no slot carries afterwards |
| ProcessRuns.WaitIff | syscall.c:460-494 | which of the three outcomes a wait has, for every process: by the number of slots with that father and whether one is a zombie |
| ProcessRuns.EveryRun | process.c:16-206 | on every run: invariant, slots in use = 1 + forks - reaps, a successor for every exit |
| ProcessRuns.WaitOfOthers | syscall.c:460-494 | error if and only if exactly one child; reaps if and only if there are two or more and a zombie |
| ProcessRuns.OnlyChildNotReaped | syscall.c:460-465 | a run leads to a process that waits while its only child is a zombie and is told there is none |
| ProcessRuns.TicksAlternate | interrupt.c:237-262 | tick-only runs alternate strictly between the two lowest live slots |
| SectorIO.StepKeeps | diskload.c:57-95 | every step of every thread keeps the lock and transfer invariant |
| SectorIO.MutualExclusion | lock.c:19-30 | under every schedule the lock is 1 exactly while one thread is between acquire and release |
| SectorIO.OnlyHolderTouchesDevice | diskload.c:57-95 | under every schedule only the one thread that holds the lock is at a port, polling or transferring, and only its turns change the device |
| SectorIO.RegistersName | diskload.c:62-67 | the registers name the sector asked for, modulo 2^24 |
| SectorIO.FullAddress | diskload.c:62-67 | had the device register bits 24 to 27, the registers would name every 28-bit sector |
| SectorIO.SectorReached | diskload.c:57-95 | under every schedule, during a transfer the sector count is 1, the device register selects the first drive in LBA mode, the registers name the sector asked for if and only if it is below 2^24, and the command is that of the request |
| SectorIO.EveryScheduleIsSequential | diskload.c:57-95 | finished requests form a sequential run in release order; reads deliver what it says; the medium agrees |
| SectorIO.CompletedRun | diskload.c:57-115 | a completed run equals a sequential order of whole-sector requests |
| SectorIO.RealTimeOrder | diskload.c:57-95 | the sequential order respects real time: what is finished at any moment stands before everything that is not |
| SectorIO.WaitsIff | diskload.c:57-95 | under every schedule a turn changes nothing if and only if the thread has nothing to do, polls while the device is not ready, or finds the lock taken |
| SectorIO.TurnsCount | diskload.c:57-95 | under every schedule each turn that changes anything brings the work left (266 turns a request) down by exactly one |
| SectorIO.NoDeadlock | diskload.c:57-95 | every schedule can be continued so that all threads finish all requests, in exactly as many turns as there is work left |
| Layout.InodeWritten | file.c:40-44 | an inode written is read back, one that does not overlap is unchanged |
| Layout.InodeFields | kernel.h:235-244 | the byte offsets of the nine words of an inode |
| Layout.InodeSlots | kernel.h:245 | slot k lies at byte 36 + 4k of an inode |
| Layout.SuperFields | kernel.h:261-267 | the byte offsets in the superblock |
| Layout.BitSet | file.c:125-129 | setting a clear bit changes that bit alone |
| Inodes.InitSuperBlock | file.c:237-250 | chain head at the first inode, bitmap blocks 51 to 55 |
| Inodes.InitInodeList | file.c:252-288 | every inode names its own place and its successor, the last one ends the chain; every other byte is what the buffer held |
| Inodes.AllocInode | file.c:48-79 | inode k is handed out with empty slots, all else in it as on disk, and the chain starts at k + 1; -1 when all 200 are out |
| Inodes.AllocMany | file.c:48-79 | from a fresh chain exactly 200 calls succeed, with pairwise different places, whatever is written back in between |
| Inodes.WriteInode | file.c:202-217 | the inode's bytes replace those at its place |
| Inodes.InodeStoredAlone | file.c:202-217 | no other inode changes and the free chain stays |
| Bitmap.GetFreeBlock | file.c:83-103 | the first clear bit; for a full block a number from 4096 on, taken from the byte behind the buffer, and never -1 |
| Bitmap.UpdateDataBlockBit | file.c:107-137 | what is refused, and the byte that is changed otherwise |
| Bitmap.UpdatedBits | file.c:125-129 | what the update leaves, bit by bit: the status or-ed into a clear bit, and-ed with a byte whose bit was set |
| Bitmap.UpdateExact | file.c:125-129 | the update is right if and only if the bit was clear or alone |
| Bitmap.AllocBlock | file.c:149-198 | the first clear block goes cleared into the first empty slot and is marked |
| Bitmap.FreshIffRoom | file.c:171-186 | the block is in 56 to 700 if and only if one of them is free |
| Bitmap.HandedOutOk | file.c:188-195 | exactly that bit is added, or no bit at all when full |
| FileData.WriteChunk | file.c:668-694 | one round of the write loop: the chunk in the slot's block, or for an empty slot a block handed out and the chunk in block 0 |
| FileData.SuperblockKeptIff | file.c:668-694 | a round leaves block 0 alone if and only if the slot is in use or the chunk is what block 0 holds there |
| FileData.WriteRounds | file.c:668-694 | the rounds of a call up to the end of any block leave what a call with just those bytes leaves, so every call is described up to the end of its first empty slot |
| FileData.WriteFile | file.c:656-702 | all slots in use: the data lands at the offset, the rest of file and disk is unchanged; last slot empty: the head lands, a block is handed out, the tail lands in block 0; success and the new offset are reported either way |
| FileData.WriteKeepsSuperblockIff | file.c:656-702 | the superblock survives the call if and only if no empty slot is reached or the tail is what it holds there |
| FileData.HoleTail | file.c:668-694 | the tail is not in the file: its bytes are zero, or its slot is still empty |
| FileData.WriteIsFlat | file.c:656-702 | on the flat file a write replaces exactly its range |
| FileData.ReadFileAtOffset | file.c:704-747 | -1 behind the end or at an empty slot, otherwise exactly the range; the last byte returned lies at or behind the file's size if and only if offset <= size < offset + length and no empty slot is met |
| FileData.WriteThenRead | file.c:656-747 | the same range read back is the data if and only if every slot reached was in use, or the last one got the new block and the tail is all zeros |
| FsInvariant.AllocatedBlock | file.c:149-198 | allocBlock keeps: busy slots in 56 to 700, no block in two slots |
| FsInvariant.InodeSaved | file.c:202-217 | writeInode keeps the invariant |
| FsInvariant.FileWritten | file.c:656-702 | writing a file keeps the invariant and touches no other file |
| FsInvariant.SavedBlocks | file.c:40-44 | an inode read from disk names busy blocks that no other live inode has |
| FsInvariant.LivePlacesApart | file.c:48-79 | inodes handed out have pairwise different places |
| FsInit.InitDataBlockBit | file.c:290-316 | exactly the blocks below 56 are busy, the other four bitmap blocks are zero |
| FsInit.CreateRootDir | file.c:318-340 | the root directory gets inode 0 with size 0, the mode and block 56; nothing else in that inode, no other inode and no other data block changes |
| FsInit.TakeBlock | file.c:350-358 | a program block is marked on a clear bit |
| FsInit.InitUserpro | file.c:342-380 | shell has 57 to 71, mypro 72 to 86, their other slots are empty, of their inodes only mode and slots are set; both are in the root directory of size 56; the blocks of the programs themselves are untouched |
| FsInit.BothItems | file.c:367-377 | the root block holds exactly the two items, naming inodes 2 and 1 |
| FsInit.InitFile | file.c:403-425 | formatting leaves exactly blocks 0 to 86 busy, the invariant in force, the three inodes and the root block on disk, the programs' slots known to the last, and every block behind the root directory's as it was |
| FsInit.InitThenLookup | file.c:342-487 | after formatting the two program names lead to the two program inodes |
| FsRuns.Serve | file.c:48-702 | one request does exactly its step and returns its reply; a skipped or refused request changes nothing |
| FsRuns.EveryRun | file.c:48-702 | on every sequence of requests: slots in use name busy blocks of their own, the free chain and the metadata bits are sound, and the inodes out are those at the start plus the successful creations, at most 200 |
| FsRuns.FileKept | file.c:656-702 | on every run a file keeps its blocks and contents as long as nobody grows or writes that file |
| FsRuns.WriteSurvives | file.c:656-702 | data written is still in the file after any run of requests that leave that file alone |
| FsRuns.Run | file.c:48-702 | init_file and the loop over the requests make such a run, with the replies of its requests |
| FsRuns.WriteBehindFirstBlock | file.c:668-694 | 513 bytes into a file with one block: success is reported, byte 512 of the file is 0, and the free chain starts at the root directory's inode |
| Strings.StrSize | str.c:10-19 | distance to the terminator |
| Strings.FindFirst | str.c:57-74 | the first separator, or -1 if there is none |
| Strings.FindLast | str.c:23-38 | the last separator, or -1 if there is none |
| Strings.StrCount | str.c:169-180 | the number of occurrences |
| Strings.StrCmp | str.c:113-127 | 0 if and only if equal, else the order of the signed chars at the first difference |
| Strings.StrCut | str.c:95-108 | everything up to and including the byte it stops at is copied, nothing else is written |
| Strings.StrMatch | str.c:134-163 | the least offset of a full occurrence, -1, or no return value |
| Strings.NameStart | file.c:604-615 | the forward walk ends behind the last separator |
| Strings.SplitPath | file.c:538-542 | both splitters cut at the same separator; base, separator and name rebuild the path |
| Directory.EntryWritten | file.c:640-643 | an item written is read back; nothing outside it changes |
| Directory.EntryFields | kernel.h:269-273 | the inode place lies behind the 20 name bytes, block first |
| Directory.LongNameIff | file.c:640-643 | the item leads to its inode if and only if the bytes of the name that lie over the place are the place's own |
| Directory.WriteDirectory | file.c:597-651 | where the item goes and what the disk is afterwards |
| Directory.ItemsOverlapIff | file.c:617-628 | consecutive items overlap if and only if the first moved to a new block |
| Directory.Lookup | file.c:446-487 | the last name of a path is looked up: the inode at its first occurrence; missing if and only if it occurs nowhere and every search says so |
| Directory.SeekNextInode | file.c:446-487 | the inode of the item where the name first occurs; missing if and only if it occurs nowhere and every search says so |
| Directory.ItemLeadsIff | file.c:481-486 | an item leads to an inode if and only if it lies in the block and names 116 bytes within one of the 1000 blocks |
| Directory.InsertThenLookup | file.c:446-651 | after an insertion the lookup loads exactly that inode |
| Directory.ListedItem | file.c:597-651 | every item of a one-block directory is whole, whatever is inserted after it |
| Directory.InsertAllThenLookup | file.c:446-651 | after any number of insertions up to 504 bytes, if the caller adds 28 to the directory's size after each (of the callers only `init_userpro` does, file.c:371-377), the lookup of any of the names ends at its first occurrence, and loads exactly its inode if there is no earlier one |
| FileCreation.Creat | syscall.c:206-242 | the next inode goes to its place with the mode and the first clear block, all else in it, the size included, as the disk had it; its item goes where the root directory's size says; all other inodes, the root's size included, and all other data blocks stay; while there is room the ownership invariant is kept and exactly one block becomes busy; -1 and no change when all inodes are out |
| FileCreation.ItemOverItem | file.c:635-647 | an item put over another leads to its own inode, and the first name occurs there if and only if it is a prefix of the second |
| FileCreation.LookupInRoot | file.c:446-487 | in a one-block root directory: missing if and only if it is empty or the name occurs nowhere, otherwise the item at the first occurrence |
| FileCreation.CreateTwice | syscall.c:206-242 | after two creations in the root directory the second item lies over the first; the first name is missing if and only if its bytes occur nowhere in the block (or the directory is empty), and leads to the second file if it is a prefix of the second name and occurs no earlier |
| FileCreation.FirstFileLost | syscall.c:206-242 | on a fresh disk, after "/a" and "/b" have been created, "/a" is missing, while its inode is on disk and its block 87 busy |

## Left out

- Boot sector, interrupt stubs, context switch, GDT, IDT, TSS: assembly and hardware set-up; loading cr3 and `switchCtx` are modelled as "this process is current".
- `schedule` in process.c: the same selection and state changes as the timer, modelled there.
- The lock, the device and the threads are a transition system rather than methods, because their steps interleave.
- In-memory inodes are values passed in and out; two pointers to one in-memory inode are not modelled.
- Saved registers in the process control block: copied field by field, only the table's states and pids are modelled; file descriptors likewise.
- Screen, keyboard and timer devices: no reasoning to prove.
- `palloc`, `kalloc`, `kmap`, `umap`, `ualloc`, `free`: the older allocator that the running kernel does not call.
- `loadProcess` and `sys_execve`: they map through directory entries left over from teardown and step 4096 pages at a time.
- `create_process`, `load_process`, the loader, the shell and the user programs: dead code or thin wrappers.
- Path resolution over several components: `strcut` copies the separator as well and a failed lookup is not noticed; lookup is modelled for one name.
- The table of open files shared by all processes: an open file is modelled by its offset only.
- The scan of the kernel's ELF header in `init_memory`: the kernel's end is a parameter.
- Translation caches: a changed table entry takes effect at once.
- PhysicalMemory.Ram.Fill: `fill` on whole words of one page; memory is an array of words.
- PhysicalMemory.Ram.MemCopy: `memcopy` on whole words of two pages, for the same reason.
- PhysicalMemory.Ram.FreePage: a page that is on the list already is excluded; FreeList.DoubleFreeIff says what the code then leaves.
- PhysicalMemory.Ram.AllocPage: needs a free page, because the code follows the list head without looking; an empty list is outside the model.
- Processes.ProcessTable.Fork: needs a free slot when a pid was found, because the code writes through the null result otherwise (ProcessRuns.ForkPossibleIff).
- Processes.ProcessTable.Exit: needs a successor, because the code uses an unset pointer otherwise (ProcessRuns.ExitPossibleIff).
- Teardown.FreeProcessUserMem: needs the frames to be owned; process 0 does not qualify, and `sys_execve`, the only caller, returns early for it.
- Fork.CopyProcessMem: pages of the parent that are themselves free (process 0 maps some) are copied, but their contents are not compared.
- IsolationRuns.EveryRun: of the stores by process 0 exactly the safe ones are steps of a run; that any other one disturbs somebody or breaks the world is ZeroStores.ZeroStoreIff.
- FileData.WriteFile: at most the last slot reached may be empty. FileData.WriteRounds covers a longer range up to the end of its first empty slot; what follows depends on the file data that has become the superblock.
- FileData.ReadFileAtOffset: a range past the 20 slots has to meet an empty slot first, because the code would go on to read behind the inode.
- FsRuns.Serve: growing a file on a full disk is skipped; Bitmap.HandedOutOk says what the code does then.
- Directory.InsertThenLookup: for directories of at most 504 bytes, beyond which items overlap (Directory.ItemsOverlapIff).
- Directory.InsertAllThenLookup: for directories that stay within 504 bytes, for the same reason.
- FileCreation.Creat: for files in the root directory while its item fits the first block (it always does: the size stays 56); the opening of the new file is left out with the table of open files.
- Directory.WriteDirectory: the path has to fit the code's 100-byte copy, the item its block, and the directory its 20 slots; the code tests none of the three.
- Directory.SeekNextInode: the string that `strcut` leaves has to end within the 20-byte buffer, which the code does not test.
- Physical limits of the device (a request that never becomes ready, sectors that fail): not modelled.
