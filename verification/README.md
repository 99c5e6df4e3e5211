# Verified models of the xv6 kernel and its user programs

These Dafny files model the copy of xv6 in `B22CS039` and prove what its hardest parts are for.
Code that changes state in place is modelled as methods of classes over the same fields and
loops, and every such method is proved against functions of the old state; protocols with
several processes are state machines whose results hold over every run.

**Storage.** `Bio` is the disk of `memide.c` (an array of blocks, written one block at a time;
a crash can fall between any two writes) and the buffer cache of `bio.c` with its LRU ring. The
cache stands for a plain map `view` from block number to contents. `Log` is `log.c` over that
cache, and `LogSpec` says what its writes mean for a disk that crashes. `LogOps` is group commit
as interleaved steps, and `CrashRuns` puts both together: whole runs of operations, commits,
crashes and recoveries. `FsSpec` and `Fs` are the bitmap allocator, `bmap`, `itrunc`, `readi` and
`writei`; `FileIo` is `fileread` and `filewrite`.

**Memory.** `FreeList` and `Umalloc` are the K&R allocator; `VmSpec`, `VmSteps` and `Vm` are the
page allocator and two-level page tables, where every page frame has one use: free, held by the
kernel, a directory, or the page of exactly one table slot.

**Processes.** `Monitor` is sleep and wakeup with both spinlocks, in steps fine enough to show the
race that `sleep` closes. `Sleepers` gives the code of sleep locks, `begin_op`/`end_op` and pipes
as programs of the monitor; `Holders` follows through whole runs of them who has a sleep lock and
which operations are open; `Pipe` is the ring with its 32-bit counters, whose methods do to the
pipe's state what that program says. `ProcSpec` and `Proc` are the process table.

`Common` has the constants of `param.h` and what several parts share.

**User programs.** `ShSpec`, `Sh` and `ShParser` are the shell's parser: what it computes from
tokens, and the cursor code. `ShGrammar` is the grammar without a parser, and that the parser
accepts exactly its spellings; `ShLaws` and `ShPrint` draw from it what is refused and how, and how
to write a command back. `GrepSpec` and `Grep` are the pattern matcher and the line buffer, and
`GrepLaws` says what common patterns come to.

Facts about the code that the proofs brought out:

- The log area has LOGSIZE blocks with its header (`B22CS039/mkfs.c:25`), so `log_write` refuses
  block 30 of 30 that `begin_op` lets operations reserve. The panic "too big a transaction" is
  unreachable exactly when every operation logs fewer than MAXOPBLOCKS blocks
  (`LogOps.GuardUnreachableIff`). A chunk of `filewrite` logs at most 6 blocks and min(4, b) of the
  b bitmap blocks: fewer than MAXOPBLOCKS exactly up to three bitmap blocks
  (`FileIo.ChunksNeverPanicIff`), and at most 7 on the disk that `mkfs` makes, which has one.
- The comment above `log_write` gives `modify; log_write; brelse`. A buffer that is changed and
  released without `log_write` can be recycled with its change lost (`Bio.UnsavedIsLost`); releasing
  is right exactly if the buffer is pinned or equal to its block on disk (`Bio.ReleaseOkIff`).
- `malloc` rounds up in 32 bits, and `morecore` hands `sbrk` an int: the block is large enough
  exactly when the rounding does not wrap, and `sbrk` is asked for what goes on the list exactly
  below 2^28 units.
- A killed writer that fills an empty pipe returns without waking the readers
  (`Sleepers.PipeCoversIff` is the exact condition, `Sleepers.StrandedReader` a run).
- `grep` drops what it has read of a line when a read leaves no newline in its buffer. It prints
  the matching lines for every pattern exactly when no read does that to a line still to be
  completed (`GrepSpec.PrintsIff`, for input without NUL bytes); full reads of short lines never do.
- `kill` looks at pids only. An unused slot has pid 0, and `allocproc` does not clear `killed`: after
  kill(0) the next process in that slot is born killed (`ProcSpec.BornKilled`; `ProcSpec.KilledIff`
  says for every run when `killed` is set).
- In the shell `>>` does what `>` does (`ShLaws.LinePlain`), and nothing but `;`, another `&`, a `)`
  or the end may follow `&`.

## Model

| member | source | states |
|---|---|---|
| Bio.Bcache.constructor | B22CS039/bio.c:38-56 | threading every buffer after the head gives a ring with each of the NBUF buffers once and prev and next inverse to each other |
| Bio.LinkFrontOk | B22CS039/bio.c:50-54 | the four pointer writes that put a buffer after the head turn the cycle through `cyc` into the one with the buffer first |
| Bio.UnlinkOk | B22CS039/bio.c:130-132 | the two pointer writes that take out a buffer leave the cycle through all the others |
| Bio.Bcache.Lookup | B22CS039/bio.c:69-77 | the walk finds the one buffer that holds (dev, blockno), if there is one, for dev other than 0 |
| Bio.Bcache.Victim | B22CS039/bio.c:79-90 | the backward walk finds the least recently released buffer among the unreferenced clean ones, and none only if all are busy |
| Bio.RecycleOk | B22CS039/bio.c:82-88 | giving an unreferenced clean buffer to another block keeps every block in at most one buffer, and changes neither the view nor the pins |
| Bio.ReplaceOk | B22CS039/bio.c:61-141 | the conditions under which one buffer may change so that all buffers still agree with the view and the disk |
| Bio.VictimExists | B22CS039/bio.c:79-92 | with fewer than NBUF blocks pinned or held there is a buffer to recycle, so "no buffers" is unreachable |
| Bio.Bcache.Bget | B22CS039/bio.c:58-93 | a hit takes a reference; a miss recycles the least recently released unreferenced clean buffer; no other buffer and no pin changes |
| Bio.Bcache.Iderw | B22CS039/memide.c:36-60 | a dirty buffer is written to the disk in one step, an invalid one is read, and the view stays |
| Bio.Bcache.Bread | B22CS039/bio.c:95-106 | the locked buffer of block k with the contents the plain map has for k, whatever was evicted before; or a reference on which it sleeps, exactly when another process has that buffer locked; or no buffer, exactly when all are busy |
| Bio.Bcache.Resume | B22CS039/bio.c:95-106 | after the sleep, locks the buffer and reads the block unless its contents are already there: they are those of the plain map |
| Bio.Bcache.SetData | B22CS039/log.c:77-77 | a change of a held buffer is a change of the plain map at its block |
| Bio.Bcache.Bwrite | B22CS039/bio.c:108-116 | the disk becomes equal to the plain map at the block, in one write, and the block is no longer pinned |
| Bio.Bcache.Brelse | B22CS039/bio.c:118-141 | the last release moves the buffer to the front of the ring and changes nothing else of any buffer; the cache goes on showing every change if and only if the buffer is pinned or equal to its block on disk |
| Bio.ReleaseOkIff | B22CS039/bio.c:118-141 | giving a held buffer back keeps the cache in step with the plain map if and only if the buffer is dirty or equal to its block on disk |
| Bio.UnsavedIsLost | B22CS039/bio.c:79-90 | a buffer changed and released without log_write can be recycled at once, and then no buffer and no disk block has the change |
| LogSpec.InstalledAt | B22CS039/log.c:68-82 | installing the first k logged blocks gives each of them its logged contents and touches nothing else, for distinct blocks outside the log |
| LogSpec.RecoveredAt | B22CS039/log.c:115-122 | recovery leaves each listed block as its logged copy, every other home block as it was, and an empty header |
| LogSpec.RecoverSame | B22CS039/log.c:115-122 | disks with the same header and log whose other home blocks agree recover to the same home blocks |
| LogSpec.RecoveryRestartable | B22CS039/log.c:115-122 | recovery from any disk that an interrupted recovery leaves ends in the same home blocks |
| LogSpec.BeforeSeal | B22CS039/log.c:176-190 | until the header is written, recovery brings back the old home blocks |
| LogSpec.AfterSeal | B22CS039/log.c:98-113 | once the header is written, recovery installs the new home blocks |
| LogSpec.SealedAtomic | B22CS039/log.c:192-202 | a crash anywhere in the installing part of a commit recovers to the new home blocks |
| LogSpec.CommitAtomic | B22CS039/log.c:192-202 | after any number of a commit's writes, recovery gives all old home blocks if the header was not written, and all new ones if it was |
| LogSpec.ManyCrashes | B22CS039/log.c:115-122 | any number of crashes in recovery changes nothing of where it ends |
| LogSpec.CrashAtomicity | B22CS039/log.c:68-202 | one crash in a commit and any number in recovery: the recovery that completes leaves an empty header and the home blocks all old or all new |
| LogSpec.CommitCompletes | B22CS039/log.c:192-202 | an uninterrupted commit ends with the new home blocks and an empty header |
| Log.Log.constructor | B22CS039/log.c:52-66 | initlog leaves the recovered disk, an empty log, and a cache equal to the disk |
| Log.Log.ReadyToCommit | B22CS039/log.c:192-233 | between commits the cache and the disk differ only in the blocks listed in lh, which is what the crash results start from |
| Log.Log.LogWrite | B22CS039/log.c:213-233 | the block joins lh once (absorption), is pinned, and the pins are again exactly the blocks of lh; the log goes on being right if and only if the block is outside the log area |
| Log.Log.WriteLog | B22CS039/log.c:176-190 | the disk goes through exactly the images of LogTrace: one log block after another, home blocks untouched; buffers that readers hold stay as they are |
| Log.Log.WriteHead | B22CS039/log.c:98-113 | one write that makes the header list lh, and nothing else |
| Log.Log.InstallTrans | B22CS039/log.c:68-82 | the disk goes through exactly the images of installing the logged blocks one by one, the pins are gone, and buffers that readers hold stay as they are |
| Log.Log.ReadHead | B22CS039/log.c:84-96 | lh becomes what the header on disk lists |
| Log.Log.RecoverFromLog | B22CS039/log.c:115-122 | the disk's writes are those of RecoverTrace and end in Recovered, so the crash results speak of this code |
| Log.Log.Commit | B22CS039/log.c:192-202 | the disk's writes are exactly those of CommitTrace, the home part of the plain map is unchanged, lh and the pins are empty afterwards, and readers of other blocks keep their buffers |
| Log.Log.BeginOp | B22CS039/log.c:124-141 | enters exactly when no commit runs and the reservation fits; otherwise it must sleep |
| Log.Log.EndOp | B22CS039/log.c:143-174 | the last operation commits everything logged, also while readers hold other blocks, and an earlier one leaves disk, lh and plain map alone |
| CrashRuns.InvNext | B22CS039/log.c:68-233 | every step of operations, commits write by write, crashes at any point and recoveries write by write keeps the invariant that recovery from the disk as it is brings back the durable part of the history |
| CrashRuns.RecoversPrefix | B22CS039/log.c:98-122 | in every run with any number of crashes, what recovery brings back at any moment are the home blocks after a prefix of the history that splits no operation |
| CrashRuns.ViewShowsHistory | B22CS039/log.c:52-66 | in every run, whenever operations can run, the cache shows exactly the writes of the history, cut back by each crash |
| CrashRuns.CommitIsDurable | B22CS039/log.c:192-202 | in every run, once a commit has written the header, everything operations did before it is durable |
| CrashRuns.DurableForever | B22CS039/log.c:115-202 | in every run, what was durable once is part of the history ever after, whatever crashes follow |
| CrashRuns.AppliedBlock | B22CS039/log.c:213-233 | what a history makes of a block is what it wrote there last |
| CrashRuns.OpenIff | B22CS039/log.c:124-174 | an operation is open in a history exactly if it began and has not ended |
| LogOps.NoCommitWhileOpen | B22CS039/log.c:143-174 | in every run, whatever operations log, while an operation is open no commit runs, so the panic "log.committing" is unreachable |
| LogOps.GroupCommit | B22CS039/log.c:124-202 | in every run, whatever operations log, each commit holds exactly the blocks logged since the one before, and lh those since the last |
| LogOps.HistoryMeans | B22CS039/log.c:124-233 | the blocks counted as logged since the last commit are exactly those written with no commit behind, and the operations counted as open those begun and not ended |
| LogOps.ReservationsFit | B22CS039/log.c:124-141 | in every run of operations that log at most MAXOPBLOCKS blocks, lh with the unused quota of open operations never exceeds LOGSIZE |
| LogOps.OneTransaction | B22CS039/log.c:124-202 | between an operation's begin and end no commit happens, so its writes fall in one transaction |
| LogOps.IdleLogAdmits | B22CS039/log.c:124-141 | in every run, whatever operations log, with no operation and no commit the log is empty and begin_op does not wait |
| LogOps.GuardUnreachableIff | B22CS039/log.c:218-219 | for every bound on what an operation logs: the panic "too big a transaction" is unreachable in all runs if and only if the bound is below MAXOPBLOCKS |
| LogOps.FillingRun | B22CS039/log.c:213-233 | the run in which three operations fill the log, for the other direction |
| FreeList.InsertOk | B22CS039/umalloc.c:33-43 | linking a block into the gap that its address belongs to keeps one circular address-sorted ring through base |
| FreeList.AbsorbOk | B22CS039/umalloc.c:33-41 | joining a block with the next one keeps the ring |
| FreeList.FreedOk | B22CS039/umalloc.c:24-44 | after both possible joins no free block ends where the next one begins |
| FreeList.RemoveOk | B22CS039/umalloc.c:76-77 | unlinking an exact fit keeps the ring and its gaps |
| FreeList.ShrinkOk | B22CS039/umalloc.c:78-82 | cutting the tail off a free block keeps the ring and its gaps |
| FreeList.Conservation | B22CS039/umalloc.c:24-90 | the sizes of blocks that tile the memory add up to the units of the memory |
| FreeList.CanonicalFreeList | B22CS039/umalloc.c:24-44 | two coalesced sorted rings over the same free units are the same list with the same sizes |
| Umalloc.AfterFree | B22CS039/umalloc.c:24-44 | freeing an allocated block keeps the heap invariant |
| Umalloc.AfterTakeTail | B22CS039/umalloc.c:78-82 | handing out the tail of a free block keeps the heap invariant |
| Umalloc.AfterGrow | B22CS039/umalloc.c:46-61 | memory from sbrk joins the heap as a block of its own |
| Umalloc.NoOverlap | B22CS039/umalloc.c:24-90 | blocks handed out overlap neither each other nor a free block |
| Umalloc.FreeIsUnallocated | B22CS039/umalloc.c:24-90 | the units on the free list are exactly the units obtained and not handed out |
| Umalloc.UnitsConserved | B22CS039/umalloc.c:24-90 | free and allocated units add up to the units obtained from sbrk |
| Umalloc.HistoryForgotten | B22CS039/umalloc.c:24-44 | the free list depends only on the memory obtained and the blocks handed out, not on the calls that led there |
| Umalloc.UnitsSuffice | B22CS039/umalloc.c:69-69 | the block holds its header and nbytes bytes if and only if rounding up does not wrap in 32 bits |
| Umalloc.SbrkAsksEnough | B22CS039/umalloc.c:52-58 | sbrk is asked for the memory that goes on the list if and only if it is below 2^28 units |
| Umalloc.Heap.FindGap | B22CS039/umalloc.c:30-32 | the search of free ends at the last free block below the freed one, also where the ring wraps around |
| Umalloc.Heap.Search | B22CS039/umalloc.c:74-88 | the walk once round the list finds the first block after freep that is large enough, all headers visited before it being too small, and the one before it; none only if there is none |
| Umalloc.Heap.Walk | B22CS039/umalloc.c:74-89 | the first fit in the list as it is or, when there is none, in the list with the new memory, at whose end the fit then ends |
| Umalloc.OnlyNewFits | B22CS039/umalloc.c:86-88 | when no block was large enough, after morecore the only one that is ends where the new memory ends |
| Umalloc.Heap.Free | B22CS039/umalloc.c:24-44 | the block is no longer handed out, no other is affected, the list is sorted and coalesced again, and freep is the last block below the freed one |
| Umalloc.Heap.Morecore | B22CS039/umalloc.c:46-61 | fails without a change, or the list holds a free block of at least the size asked for |
| Umalloc.Heap.Malloc | B22CS039/umalloc.c:63-90 | hands out the last units, exactly as many as needed, of the first block after freep that has them, and freep becomes the header before it; when there is none, the end of the new memory from sbrk; fails exactly when sbrk then gives nothing |
| FsSpec.AttachOk | B22CS039/fs.c:370-400 | giving a free block to an empty slot keeps every block in exactly one slot and the bitmap in step with it |
| FsSpec.TruncOk | B22CS039/fs.c:402-435 | clearing the bits of an inode's blocks and emptying its slots keeps every block in exactly one slot |
| FsSpec.WriteChunk | B22CS039/fs.c:495-502 | storing bytes in the block of an offset splices them into that file's bytes |
| FsSpec.WriteOthers | B22CS039/fs.c:495-502 | and leaves the bytes of all other files alone |
| Fs.AllHaveContents | B22CS039/fs.c:449-511 | a file has contents c exactly when all its blocks below its size are mapped and their bytes are c |
| Fs.Disk.Balloc | B22CS039/fs.c:53-78 | the first block whose bit is clear is marked and zeroed, no other block or bit changes, and it fails only if all bits are set |
| Fs.Disk.Bfree | B22CS039/fs.c:80-95 | exactly one bit is cleared; it had to be set |
| Fs.Disk.Iupdate | B22CS039/fs.c:216-236 | the inode on disk becomes the one in memory |
| Fs.Disk.Bmap | B22CS039/fs.c:370-400 | a mapped block is returned and nothing changes; otherwise a block nobody owns, zeroed, becomes that slot's, and exactly the data, bitmap and indirect blocks concerned are logged |
| Fs.Disk.Readi | B22CS039/fs.c:449-476 | returns the bytes of the file from off, clipped to its size, across block edges and the indirect boundary, and allocates nothing |
| Fs.Disk.WriteLoop | B22CS039/fs.c:495-502 | the bytes are spliced in chunk by chunk; at most 1536 bytes log at most 5 blocks and min(4, b) of the b bitmap blocks, since an unaligned first block is already mapped |
| Fs.Disk.Writei | B22CS039/fs.c:478-511 | the file becomes old[..off] + src + old[off+n..] and no other file changes; the inode on disk equals the one in memory afterwards; at most 1536 bytes log at most 6 blocks and min(4, b) of the b bitmap blocks; the 32-bit and size checks decide the errors |
| Fs.Disk.Itrunc | B22CS039/fs.c:402-435 | the file is empty in memory and on disk, all other files keep their bytes, and exactly the bits of the inode's direct blocks, the blocks its indirect block lists and the indirect block are cleared; "freeing free block" is unreachable |
| Fs.Disk.Places | B22CS039/fs.h:38-48 | on a disk laid out as mkfs does it, inodes and bitmap bits have distinct places, outside the data area and outside each other's |
| FileIo.Fileread | B22CS039/file.c:95-113 | for an inode, returns the slice at the file's offset and moves the offset by its length |
| FileIo.WriteOp | B22CS039/file.c:134-144 | one chunk is one transaction within the bound of Writei, and moves the offset by what it wrote |
| FileIo.Filewrite | B22CS039/file.c:115-156 | for an inode, the chunks put a contiguous prefix of the data at the offset, all of it unless the file would pass its largest size, and the result is n exactly then |
| FileIo.ChunksNeverPanicIff | B22CS039/file.c:122-150 | operations within the bound of one chunk never meet the panic "too big a transaction", in any run, if and only if the disk has at most three bitmap blocks |
| VmSpec.TableOk | B22CS039/vm.c:41-54 | entering a new zeroed table in a directory keeps every table and user frame in exactly one slot |
| VmSpec.MapOk | B22CS039/vm.c:71-73 | mapping a user page gives its frame to that slot and keeps the rest |
| VmSpec.UnmapOk | B22CS039/vm.c:269-276 | unmapping a user page takes its frame from that slot and keeps the rest |
| VmSpec.OrphanedOk | B22CS039/vm.c:283-298 | a directory without user pages can be taken apart: its tables and itself become ordinary frames |
| VmSpec.PopOk | B22CS039/kalloc.c:82-95 | the first free frame leaves the list, which still has every other free frame once |
| VmSpec.PushOk | B22CS039/kalloc.c:55-77 | a frame filled with junk goes in front of the list of all free frames |
| VmSteps.FramesConserved | B22CS039/kalloc.c:55-95 | in every sound state each frame is on the free list exactly once or in use, and the numbers add up |
| VmSteps.OtherDirectory | B22CS039/vm.c:221-298 | an operation on one address space leaves the mappings of every other one alone |
| VmSteps.DropOk | B22CS039/vm.c:269-276 | freeing a page's frame and clearing its entry unmaps that page and no other, and keeps every frame in one slot |
| VmSteps.UserFrame | B22CS039/vm.c:269-273 | a present user entry names a frame of its own, so the panic for frame 0 is unreachable |
| VmSteps.DroppedSkip | B22CS039/vm.c:264-268 | pages without a mapping add nothing to what deallocuvm frees, so skipping them is right |
| VmSteps.EntryDecides | B22CS039/vm.c:46-52 | what user code may do with a page, by both levels of the page table, is what the page's own entry says, since directory entries restrict nothing |
| Vm.Machine.Kalloc | B22CS039/kalloc.c:79-95 | takes the first frame of the list, or returns 0 when there is none |
| Vm.Machine.Kfree | B22CS039/kalloc.c:55-77 | the frame becomes free and heads the list |
| Vm.Machine.Freerange | B22CS039/kalloc.c:46-53 | exactly the whole pages of the range become free |
| Vm.Machine.Walkpgdir | B22CS039/vm.c:32-55 | returns the table of the page, made from a free frame if asked for and entered as present, writable and for users (part of Valid); no mapping changes; 0 only without a table and without memory or permission |
| Vm.Machine.Mappages | B22CS039/vm.c:57-80 | on success exactly the pages of the range map to consecutive frames and were unmapped before; it panics only if one was mapped; a failing user mapping changes nothing |
| Vm.KernelMapped | B22CS039/vm.c:103-115 | every page of a row maps to the row's physical range in order with its permission, and the user part is empty |
| Vm.KernelView | B22CS039/vm.c:82-115 | the kernel's address space page by page: physical memory below PHYSTOP at KERNBASE, read-only from KERNLINK to data, devices where they are, nothing else, and nothing for users |
| Vm.KernelClosed | B22CS039/vm.c:82-88 | user code may neither read nor write a page of the kernel's part, in any address space that maps it so |
| Vm.RowVacant | B22CS039/vm.c:126-133 | the rows do not overlap, so mapping them cannot panic |
| Vm.Machine.Setupkvm | B22CS039/vm.c:117-136 | a new directory mapping exactly the table's rows, or, with at most 1024 frames free, a failure that gives every frame back |
| Vm.Machine.Allocuvm | B22CS039/vm.c:219-249 | success maps the new pages to zeroed frames of their own that user code may read and write by both levels of the page table, and keeps the rest; failure, which needs a shortage of frames, leaves the address space as it was and keeps only page tables |
| Vm.Machine.DeallocPage | B22CS039/vm.c:264-277 | one round of the loop has the effect of visiting every page up to where it goes on, 4 MB skip included |
| Vm.Machine.Deallocuvm | B22CS039/vm.c:251-279 | for oldsz up to KERNBASE exactly the pages of [PGROUNDUP(newsz), oldsz) are unmapped and exactly their frames freed |
| Vm.Machine.Freevm | B22CS039/vm.c:281-298 | every frame of the address space is free afterwards and no other frame changes use or contents |
| Vm.Machine.Copyuvm | B22CS039/vm.c:313-345 | the child's user pages have the parent's contents and flags in other frames, user code may do with them what it may with the parent's, by both levels of the page table, and the parent is unchanged; a failure, which needs a shortage of frames, gives every frame back |
| Vm.UserPagesApart | B22CS039/vm.c:313-345 | two user pages, of one address space or two, never share a frame |
| Monitor.NoLostWakeup | B22CS039/proc.c:415-474 | in every run of code that wakes every channel whose reason to wait it ends, whenever the lock is free whoever sleeps has a reason to |
| Monitor.InvNext | B22CS039/proc.c:415-474 | each single step of sleep, wakeup, kill and the lock's users keeps the invariant behind it: a sleeper has a reason, or the lock's holder will still wake it |
| Monitor.MutualExclusion | B22CS039/proc.c:415-452 | at most one process is inside the lock |
| Monitor.KilledAwake | B22CS039/proc.c:479-497 | in every run a process asleep when it is killed goes on with the operation it slept in |
| Monitor.HolderProgresses | B22CS039/proc.c:430-451 | the two spinlocks never deadlock |
| Sleepers.AsleepOnHeldLock | B22CS039/sleeplock.c:22-42 | a process asleep on a sleep lock implies that it is held |
| Holders.LockInvNext | B22CS039/sleeplock.c:22-42 | each step of acquiresleep and releasesleep, with only holders releasing, keeps: at most one process has the lock, and it is locked under that process's pid exactly then |
| Holders.LockExcludes | B22CS039/sleeplock.c:22-42 | in every such run at most one process is between its return from acquiresleep and its releasesleep, and meanwhile the lock is locked under its pid |
| Holders.HoldingSleep | B22CS039/sleeplock.c:44-53 | in every such run what holdingsleep tests is true of a process exactly while it has the lock |
| Holders.SleeperAwaitsHolder | B22CS039/sleeplock.c:22-42 | in every such run whoever sleeps in acquiresleep waits for a process that has the lock |
| Sleepers.AsleepOnFullLog | B22CS039/log.c:124-174 | a process asleep on &log implies that a commit runs or the reservation is full |
| Holders.OutstandingCounts | B22CS039/log.c:124-174 | in every run of begin_op, log_write, end_op and commits, outstanding is the number of processes between begin_op and end_op, a commit runs only when there are none, and lh.n counts the blocks added since the last commit |
| Sleepers.PipeCoversIff | B22CS039/pipe.c:59-121 | pipe code wakes everyone it has to if and only if it is not a killed writer that overfills an empty pipe with both ends open |
| Sleepers.ReadersRun | B22CS039/pipe.c:100-121 | in runs through open files, a process that has not returned from piperead finds the read end open, and readers sleep on nread only |
| Sleepers.AsleepOnPipe | B22CS039/pipe.c:59-121 | in runs through open files without that case, asleep on nwrite implies full with the read end open, asleep on nread implies empty with both ends open |
| Sleepers.StrandedReader | B22CS039/pipe.c:84-92 | the run, through open files, that leaves a reader asleep on a full pipe |
| Pipe.CountersMean | B22CS039/pipe.c:85-94 | the wrapping 32-bit counters tell full and empty apart, differ by the number of bytes held, and index the right cell, because 512 divides 2^32 |
| Pipe.Ring.constructor | B22CS039/pipe.c:33-36 | a new pipe is empty and open at both ends |
| Pipe.Ring.Put | B22CS039/pipe.c:94-94 | a byte goes behind all bytes written so far, also when the counter wraps |
| Pipe.Ring.Pipewrite | B22CS039/pipe.c:77-98 | between taking and giving up the lock, as much of src as there is room for is appended to the bytes written; it returns n, -1 or sleeps exactly as room, the read end and killed say; what it wakes is the monitor's program for writing |
| Pipe.Ring.Piperead | B22CS039/pipe.c:100-121 | as many bytes as are there and asked for follow those returned so far; it returns their number, -1 or sleeps exactly as the ring, the write end and killed say; end of file only when empty with the write end closed; what it wakes is the monitor's program for reading |
| Pipe.Ring.Pipeclose | B22CS039/pipe.c:59-75 | closes exactly the end named, wakes the other side, and frees the pipe exactly when both ends are closed |
| ProcSpec.InvNext | B22CS039/proc.c:68-497 | every step of fork, exit, wait, sleep, wakeup, kill, scheduling and yielding keeps the table's invariant |
| ProcSpec.ExitOk | B22CS039/proc.c:246-266 | exit keeps it: the parent and, for inherited zombies, init are woken before the process turns zombie |
| ProcSpec.ReapOk | B22CS039/proc.c:286-299 | wait keeps it, and what it reaps has exited and was not reaped before |
| ProcSpec.WaiterSeesZombie | B22CS039/proc.c:270-312 | in every run nobody sleeps in wait while it has a zombie child |
| ProcSpec.WaiterHasChild | B22CS039/proc.c:303-310 | in every run whoever sleeps in wait has a live child, whose exit will wake it |
| ProcSpec.ParentLives | B22CS039/proc.c:253-260 | in every run every process but init, zombies included, has a parent that has not exited |
| ProcSpec.ReapedOnce | B22CS039/proc.c:286-299 | in every run each exited process is reaped by at most one wait |
| ProcSpec.NoLostExit | B22CS039/proc.c:224-312 | in every run an exited process that was not reaped is still a zombie in the table |
| ProcSpec.KilledIff | B22CS039/proc.c:286-497 | in every run killed is set exactly by a kill that hit the slot after it was last reaped, in use or not |
| ProcSpec.BornKilled | B22CS039/proc.c:485-486 | the run in which kill(0) hits an unused slot and the next process in it is born killed |
| ProcSpec.WaiterNotKilled | B22CS039/proc.c:303-310 | in every run nobody sleeps in wait once it is killed |
| ProcSpec.EmbryoInFork | B22CS039/proc.c:73-199 | in every run an embryo is in the hands of a process in fork, so that a failing fork loses no slot |
| Proc.Ptable.constructor | B22CS039/proc.c:118-154 | the table starts with the first process alone |
| Proc.Ptable.Allocproc | B22CS039/proc.c:73-92 | the first unused slot becomes an embryo with a new pid, or none is unused |
| Proc.Ptable.Fork | B22CS039/proc.c:180-222 | the child is linked to its parent and then runnable, or the slot is unused again |
| Proc.Ptable.Wakeup1 | B22CS039/proc.c:454-465 | exactly the processes asleep on the channel become runnable |
| Proc.Ptable.PassChildren | B22CS039/proc.c:253-260 | the loop gives all children to init, waking it if one of them is a zombie |
| Proc.Ptable.Exit | B22CS039/proc.c:246-267 | the code under ptable.lock is the exit step of the table: the process is a zombie, its children are init's, and nothing else of any process but who is awake changes |
| Proc.Ptable.Wait | B22CS039/proc.c:270-312 | reaps the first zombie child if there is one; sleeps exactly when it has children, none a zombie, and was not killed |
| Proc.Ptable.Kill | B22CS039/proc.c:476-497 | marks the first process with the pid and makes it runnable if it sleeps; fails exactly when no slot has the pid |
| Proc.Ptable.Scheduler | B22CS039/proc.c:333-345 | the first runnable process from a slot on runs |
| ShSpec.LineProper | B22CS039/sh.c:344-446 | every command the parser accepts is proper: at most nine arguments, words without blanks and symbols, the two kinds of redirection |
| ShGrammar.AcceptsIff | B22CS039/sh.c:327-446 | for every line and command: parsecmd accepts the line as that command if and only if the grammar, stated without a parser, spells it so |
| ShGrammar.LineSound | B22CS039/sh.c:344-446 | what parseline takes of any tokens spells the command it returns |
| ShGrammar.LineComplete | B22CS039/sh.c:344-446 | any spelling of a command, before the end or a parenthesis, is parsed as that command |
| ShGrammar.Unambiguous | B22CS039/sh.c:344-446 | no line spells two commands |
| ShLaws.LinePlain | B22CS039/sh.c:386-394 | writing > for every >> in any tokens gives the same command or the same panic |
| ShLaws.RedirsAnywhere | B22CS039/sh.c:427-442 | a simple command with redirections among its words is the command with them behind its words |
| ShLaws.RefusesMissingFile | B22CS039/sh.c:380-385 | a redirection without a word behind it panics with "missing file" |
| ShLaws.RefusesTenWords | B22CS039/sh.c:436-440 | a tenth word panics with "too many args" |
| ShLaws.RefusesParen | B22CS039/sh.c:431-435 | a parenthesis behind a word or a redirection panics with "syntax" |
| ShLaws.RefusesOpen | B22CS039/sh.c:407-409 | a parenthesis that is not closed panics with "missing )" |
| ShLaws.RefusesClosed | B22CS039/sh.c:334-338 | anything from an unmatched closing parenthesis on is left over |
| ShPrint.ReadBack | B22CS039/sh.c:327-446 | any proper command, written in shell syntax with the parentheses it needs, is parsed to the same command |
| ShPrint.RoundTrip | B22CS039/sh.c:327-446 | whatever parsecmd accepts, writing it and parsing it again gives the same tree |
| ShPrint.LexText | B22CS039/sh.c:262-308 | splitting the text of some tokens gives the tokens |
| ShPrint.LexTight | B22CS039/sh.c:276-303 | a token is read off whatever stands directly behind it |
| ShPrint.BlankLex | B22CS039/sh.c:258-275 | each of the five blanks separates tokens and means nothing else |
| ShPrint.BackgroundEndsLine | B22CS039/sh.c:344-359 | a word after & is left over and the line refused |
| Sh.EndsOutside | B22CS039/sh.c:448-493 | the place where one word's NUL goes is inside no word |
| Sh.Nulterminated | B22CS039/sh.c:448-493 | once NULs are at the ends of all words, every argv and file C string is exactly its token |
| ShParser.Cursor.Gettoken | B22CS039/sh.c:265-308 | returns the next token's code and span and leaves the cursor at the rest of the tokens |
| ShParser.Cursor.Peek | B22CS039/sh.c:310-320 | tells whether the next token starts with one of the characters, and moves over blanks only |
| ShParser.Cursor.Parseredirs | B22CS039/sh.c:374-397 | does what the grammar says for redirections, or panics as it says |
| ShParser.Cursor.Parseexec | B22CS039/sh.c:415-446 | does what the grammar says for simple commands and blocks, and terminates |
| ShParser.Cursor.Parseblock | B22CS039/sh.c:399-413 | does what the grammar says for a parenthesised line and its redirections |
| ShParser.Cursor.Parsepipe | B22CS039/sh.c:361-372 | does what the grammar says for pipelines |
| ShParser.Cursor.Parseline | B22CS039/sh.c:344-359 | does what the grammar says for lines |
| ShParser.Cursor.Nulterminate | B22CS039/sh.c:448-493 | writes NUL exactly at the ends of the command's words |
| ShParser.Cursor.Parsecmd | B22CS039/sh.c:327-342 | fails exactly as the grammar does; otherwise the tree, its words read as C strings from the line, is the command of the grammar |
| GrepSpec.OnePiece | B22CS039/grep.c:93-94 | a text starts with c followed by the rest of the pattern exactly when its first character fits and the rest matches after it |
| GrepSpec.ManyPiece | B22CS039/grep.c:98-106 | a text starts with c* followed by the rest exactly when the rest matches after some run of fitting characters |
| GrepLaws.WordOccurs | B22CS039/grep.c:72-106 | a pattern without operators matches exactly the texts that contain it |
| GrepLaws.WordAnchored | B22CS039/grep.c:72-106 | with ^ those that begin with it, with $ those that end with it, with both the word itself |
| GrepLaws.DotMeans | B22CS039/grep.c:84-106 | . matches any text but the empty one, and .* and the empty pattern match every text |
| GrepLaws.EverythingPrinted | B22CS039/grep.c:20-34 | with the empty pattern the lines printed and the rest kept are the text, newlines included |
| Grep.Match | B22CS039/grep.c:72-82 | terminates, and says whether the text is in the pattern's language |
| Grep.Matchhere | B22CS039/grep.c:84-96 | terminates, and says whether some string of the pattern's language starts the text, all of it after a final $ |
| Grep.Matchstar | B22CS039/grep.c:98-106 | terminates, and says whether a run of c followed by the rest of the pattern starts the text |
| GrepSpec.SelectedAppend | B22CS039/grep.c:17-34 | the lines of a text read in two pieces are those of the first piece and those of what it left over with the second |
| GrepSpec.PrintsIff | B22CS039/grep.c:10-36 | for input without NUL bytes, grep prints exactly the matching newline-terminated lines, for every pattern, if and only if no read empties the buffer of a line still to be completed |
| GrepSpec.FullReads | B22CS039/grep.c:10-36 | with full reads until end of file and lines of at most 1023 bytes, none of them NUL, it always does |
| GrepSpec.ShortReadLoses | B22CS039/grep.c:29-30 | a read of one byte that does not |
| Grep.PrintLines | B22CS039/grep.c:20-28 | the inner loop prints the matching lines in the buffer and ends after the last newline |
| Grep.Round | B22CS039/grep.c:19-34 | and what follows it is moved to the front of the buffer, unless there was no newline |
| Grep.Grep | B22CS039/grep.c:10-36 | for every input, NUL bytes included, and every sequence of read sizes the output is that of the reading rounds, of which PrintsIff speaks |

## Left out

- Keyboard, console, `enigma` and autocomplete code, and the hardware files (`ide.c`, `lapic.c`, `ioapic.c`, `mp.c`, `uart.c`, `trap.c`, segment setup, `swtch`): port I/O and tables.
- `exec.c`, `syscall.c`, `sysproc.c`, `sysfile.c`, `usertests.c`, the small utilities and `mkfs.c`: plumbing; directories, paths and link counts of `fs.c` likewise.
- The copies of this kernel in the other directories: the same text.
- C layout: struct buf, dinodes, processes and page table entries are datatypes; the log header and the indirect block keep their word layout, bitmap bits are booleans, P2V and V2P are the identity on frame numbers.
- Exhaustion: "out of blocks" and "no buffers" are outcomes, and the conditions under which they arise are stated; inode exhaustion is not modelled.
- Spinlocks, `xchg` and context switches are atomic steps; data under a spinlock changes in one step with taking it.
- Log.Log.Commit: readers may hold blocks that are neither logged nor in the log area, fewer than NBUF together with those of the log, and hold them throughout; their taking and giving back buffers between the commit's own steps is not modelled.
- Log.Log.LogWrite: the panics "too big a transaction" and "log_write outside of trans" are requirements; LogOps shows when the first cannot happen.
- Bio.Bcache.Bread: ends where the process sleeps on the buffer's lock, and Resume starts where it has woken; the sleep between is the subject of Sleepers.
- Fs.Disk.Writei: one inode is in memory and the others are seen on disk; the inode cache, its reference counts and device inodes (whose driver calls are not part of this model) are left out. The base state has every block below a file's size mapped.
- FileIo.Filewrite: pipes go to Pipe; a device inode is an outcome, since drivers are not part of this model; a chunk that fails stops the loop with what was written before it.
- FileIo.EndOp: carries the bound of one chunk as its requirement; the transaction itself is the subject of Log.
- Umalloc.Heap.Malloc: when sbrk gives memory, requests of 2^31 bytes and more are excluded, since `morecore` then asks `sbrk` for something else than it puts on the list (Umalloc.SbrkAsksEnough); what sbrk returns is a parameter, above all memory it returned before.
- Vm.Machine.Mappages: ranges whose last address wraps around are excluded, and user ranges are single pages with a frame the caller has just allocated, as in all calls of the kernel.
- Vm.Machine.Copyuvm: the two panics for a page missing below sz are a requirement.
- Vm.Machine.Allocuvm: the pages to be added must be unmapped, since "remap" would panic.
- Vm.Machine.Deallocuvm: oldsz is at most KERNBASE, as in every caller's process size.
- CrashRuns.InvNext: operations are their writes, one block at a time, and commits start only when none is open, which is LogOps.NoCommitWhileOpen; the panics of log_write stop the machine and are not steps.
- Pipe.Ring.constructor: the allocation of the two files and of the page, and its failure, are left out.
- `loaduvm`, `inituvm`, `clearpteu`, `uva2ka`, `copyout` and switching page tables: easy members beside those above.
- Proc.Ptable.Fork: the open files, working directory, trap frame and name that the child inherits are left out; `memory` stands for what kalloc and copyuvm return. The parent link, written without the lock, is a step of its own in ProcSpec.
- Proc.Ptable.Exit: closing files and releasing the directory come before and are left out; pids are unbounded integers.
- Umalloc.Heap.Walk: the source's loop asks sbrk at most once and then finds a block; the second walk is written behind the first.
- Holders.LockExcludes: a run in which another process than the holder calls releasesleep is left out, as the source's callers check holdingsleep or hold the lock.
- Sleepers.AsleepOnPipe: a run goes through open files: whoever reads has the read end open, and nobody closes it under a reader, as the reference counts of file.c ensure; those counts are not modelled.
- Grep.Grep: the file's contents and the sizes of short reads are parameters. GrepSpec.PrintsIff is for input without NUL bytes: strchr ends at one, and what grep then prints is Printed.
- ShParser.Cursor.Parsecmd: the line has no NUL before its end; commands are values, so memory for them is not modelled, and `runcmd` is left out.
