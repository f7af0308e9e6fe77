# A verified model of the UnstableOS core

UnstableOS is a 32-bit x86 kernel with its own C library. This project models the parts of it that are a fast or
stateful form of something simple, or a protocol between threads, and proves what they promise. Code that updates
state in place is modelled by classes, arrays and loops, each proved against a specification; protocols are state
machines over their atomic steps, and the theorems about them hold for every run and any number of threads.

| files | component |
|---|---|
| `RbShape`, `RbAddShape`, `RbTree`, `RbRemoveShape`, `RbRemove`, `RbRun` | the red-black tree with parent links |
| `SectorCache`, `HdDevice` | the write-back sector cache and the disk reads and writes over it |
| `CowFork` | copy-on-write fork |
| `RangeLocks` | byte-range locks of fcntl |
| `HeapImage`, `HeapJoin`, `HeapWreck`, `Malloc` | malloc, free and realloc over headers inside the heap |
| `RwSpinlock` | the readers-writer spinlock |
| `Scheduler` | the round-robin scheduler |
| `SleepQueue` | the delta queue of sleeping threads |
| `Futex` | untimed futex wait and wake |
| `SignalFrames` | nested signal delivery and return |
| `Qsort` | qsort_r, byte for byte |
| `Calendar` | gmtime_r and mktime |
| `Sha256`, `Sha256Stream`, `Sha256Words`, `Sha256Standard` | SHA-256 compression, padding and streaming |
| `ExecStack` | the initial stack image of a program |
| `Numbers`, `Division`, `Sequences`, `Options`, `Errno` | shared definitions |

Where the code does not meet the property one would expect, the model keeps the code as it is and states exactly
when the property holds:

- `rbtree_remove` on a red-black tree stores through a null pointer exactly when the node has two children and its right
  child has none (line 174), and otherwise keeps the red-black rules exactly when `KeepsRules` holds (`RbRemove.Remove`,
  `RbRemoveShape.RemovedRedBlack`, with small trees in `RemoveCanBreakRules` and `RemoveCanFault`). From the trees it
  leaves behind it can also read through a null pointer, at line 203, exactly when `NullSibling` says so
  (`RbRun.NullSiblingRun` is a run of six calls). Over every run of adds and removes that meets neither, order,
  membership and links are kept (`RbRun.Execute`).
- Unlocking or relocking part of a range changes just that part unless one of the caller's own entries reaches to the
  end of the file and lies so that lines 866 or 889 of `src/fs/fs.c` take it to end where it starts
  (`RangeLocks.PromiseIff`, with an example in `TailLost`).
- `malloc` leaves a list of chunks behind exactly when the size and the two headers added at line 52 do not wrap around,
  that is, unless it lies between 2^32 - 27 and 2^32 - 4, or when no chunk passes the wrapped test either; otherwise the
  bytes of the heap are the headers of no list of chunks (`Malloc.Heap.Malloc`, with malloc(-8) in `MallocBreaks`).
- `realloc` to one of the three larger sizes, which round to zero, copies the old block over the header behind a block of
  no bytes. With the sizes that do not wrap, the heap stays a list and every other block keeps its bytes when malloc
  fails, the size is at most 2^32 - 4, or the old block is empty; otherwise no list is left unless the old block begins
  with the byte 'M' that the header begins with (`Malloc.Heap.Realloc`, with realloc(p, -1) in `ReallocBreaks`).
- `free` joins a block with a free chunk behind it, and with one before it unless the chunk behind it is free and the
  last one, where line 138 leaves. A heap without two free chunks side by side stays one exactly then
  (`Malloc.Heap.Free`, `HeapJoin.CoalescedNoTwoFree`, with two blocks of four bytes in `Malloc.FreeLeavesTwo`).
- An unlock is refused like a lock for writing: exactly when another owner has a lock on one of its bytes
  (`RangeLocks.LockTable.AddLock`).
- A downgrade of the readers-writer lock made while its count is not zero jams the lock for good; nothing else does
  (`RwSpinlock.DowngradeJams`, `JamForever`, with a run of two threads in `DowngradeDeadlock`).
- Removing a sleeper leaves a freed entry at the head of the queue exactly when it is the head and has a successor
  (`SleepQueue.Queue.RemoveThread`, with an example in `HeadRemoval`); a run without such a step keeps its promises
  (`SleepQueue.Queue.Execute`).
- `mktime` undoes `gmtime_r` exactly on the times from -67768040609740800 to before 67768036191676800, those of the years
  that fit the int they are stored in (`Calendar.RoundTrip`, with a time of 64 bits that does not come back in
  `RoundTripFails`).
- The SHA-256 padding is the standard one exactly when the length is not 55 modulo 64 and is below 2^29 bytes, because
  line 98 adds a block too many and the bit count is computed in 32 bits (`Sha256Stream.PadStandard`, with the message
  of 55 bytes in `PadFails`).
- A piece of the message is appended unless it and the bytes in the buffer add up to 2^32 or more at line 118
  (`Sha256Stream.Context.Update`). That takes a piece of at least 2^32 - 63 bytes, more than a 32-bit process can hold.

## Model

| member | source | states |
|---|---|---|
| RbTree.RbRoot.Add | src/rbtree.c:88-142 | adding a node to a sorted tree of any colours: links consistent, and the in-order nodes are the old ones with the new one in front of the first that is not smaller; a red-black tree stays one: root black, no red node under a red one, equal black heights |
| RbTree.RbRoot.FindPlace | src/rbtree.c:98-105 | the descent ends at the empty place of PlaceOf |
| RbAddShape.PlaceOrder | src/rbtree.c:98-105 | everything before that place has a smaller key and everything after it has not |
| RbTree.RbRoot.Attach | src/rbtree.c:91-107 | the node hangs red at the place given, all links are consistent, and only it and its parent change |
| RbTree.RbRoot.Rotate | src/rbtree.c:32-51 | a rotation keeps all links consistent and turns the subtree around, whatever its parent |
| RbShape.RotatedInorder | src/rbtree.c:32-51 | a rotation does not change the in-order sequence |
| RbTree.RbRoot.Climb | src/rbtree.c:114-139 | one turn of the upward loop, at a grandparent or at a red root: the tree is done, or the violation has moved up two levels |
| RbTree.RbRoot.Rebalance | src/rbtree.c:109-141 | the upward loop ends and does to the links what AddUp does to the shape |
| RbAddShape.AddUpInorder | src/rbtree.c:109-141 | the loop keeps the in-order sequence, whatever the colours |
| RbAddShape.AddUpRedBlack | src/rbtree.c:109-141 | from one red node, perhaps under a red one, the red-black rules are restored |
| RbAddShape.AddedInorder | src/rbtree.c:88-142 | the in-order sequence gains the new node at its place and stays sorted |
| RbShape.PlugRB | src/rbtree.c:109-141 | a subtree of the right height and colour in a legal context makes a legal tree |
| RbShape.InsertedSorted | src/rbtree.c:98-107 | inserting a key between its neighbours keeps the sequence sorted |
| RbShape.DescendOrder | src/rbtree.c:53-105 | going to the side the comparison says loses no node on that side of the key |
| RbTree.RbRoot.SearchExact | src/rbtree.c:53-57 | a node with the key if there is one, else none |
| RbTree.RbRoot.SearchLte | src/rbtree.c:59-71 | the node with the greatest key not above the value, or none if all are above it |
| RbTree.RbRoot.SearchGte | src/rbtree.c:73-86 | the node with the least key not below the value, or none if all are below it |
| RbRemove.Remove | src/rbtree.c:144-241 | on a tree of any colours: a node with two children faults exactly when the right one has none, a node with one child never does, and one without children only if it is black and not the root; on a red-black tree the first case is the only one; otherwise the in-order sequence loses just that node and all links are consistent; a red-black tree stays one exactly when KeepsRules holds |
| RbRemove.RemoveInner | src/rbtree.c:155-195 | the successor takes the place of a node with two children, or line 174 faults, exactly when the right child's two links are null |
| RbRemove.UnlinkSuccessor | src/rbtree.c:155-169 | the successor is unlinked from the right subtree, its right child takes its place in red, and all links are consistent |
| RbRemove.FindSuccessor | src/rbtree.c:15-30 | the leftmost node of the right subtree, with the context that leads back to the root of it |
| RbRemove.RemoveOuter | src/rbtree.c:146-241 | a node with at most one child is spliced out and the fix-up runs, or faults exactly when it comes to a node without a sibling |
| RbRemove.WalkUp | src/rbtree.c:199-240 | the fix-up loop ends and does to the links what FixUp does to the shape, or faults exactly when NullSibling holds |
| RbRemove.FixTurn | src/rbtree.c:200-239 | one turn of the fix-up with its rotations and recolourings, links consistent; it faults exactly when there is no sibling |
| RbRemove.RedSibling | src/rbtree.c:203-235 | the turn at a red sibling, in which line 207 puts the parent in the place of the sibling |
| RbRemove.WithoutRedBlack | src/rbtree.c:144-241 | on a red-black tree only line 174 faults, and the rules are kept exactly when KeepsRules holds |
| RbRemove.FaultFields | src/rbtree.c:144-241 | when a removal faults, on the links and colours of the nodes before the call |
| RbRemove.FaultFieldsRB | src/rbtree.c:144-241 | on a red-black tree: exactly when the node has two children and the right one has none |
| RbRemoveShape.RemovedInorder | src/rbtree.c:144-241 | the in-order sequence loses the removed node and nothing else, through all rotations |
| RbRemoveShape.RemovedRedBlack | src/rbtree.c:144-241 | the tree after removal is red-black if and only if KeepsRules holds of the node and its place |
| RbRemoveShape.NoNullSibling | src/rbtree.c:199-203 | in a red-black tree every sibling the fix-up comes to is there |
| RbRemoveShape.NullSiblingAbove | src/rbtree.c:199-203 | the fix-up comes to a missing sibling only where, on the way up, a sibling is missing or a red one has no child on the far side |
| RbRemoveShape.FixUpRedBlack | src/rbtree.c:196-241 | where the fix-up meets no red sibling it restores equal black heights |
| RbRemoveShape.FixUpBroken | src/rbtree.c:203-211 | where it meets a red sibling, whose rotation is followed by a stale read at line 207, the rules are broken |
| RbRemoveShape.RemoveCanBreakRules | src/rbtree.c:155-211 | three concrete trees whose rules removal breaks, one of them by the stale read of line 207 |
| RbRemoveShape.RemoveCanFault | src/rbtree.c:166-174 | a red-black tree on whose root the store at line 174 goes through a null pointer |
| RbRun.Execute | src/rbtree.c:88-241 | over every run of adds and removes from a sorted tree of any colours, up to the first call that faults by the exact condition: links consistent, in-order sequence sorted, and the nodes are those added and not removed |
| RbRun.RunKeeps | src/rbtree.c:88-241 | the order and membership of that run |
| RbRun.NullSiblingRun | src/rbtree.c:199-203 | four adds and two removes that read through a null pointer at line 203 |
| RbRun.RedRootRun | src/rbtree.c:114-118 | two adds and a remove leave a red root, and the next add goes through line 115 |
| SectorCache.Cache.FlushEntry | src/block/hd.c:60-72 | a dirty entry is written to its sector and becomes clean; the logical contents stay |
| SectorCache.Cache.Flush | src/block/hd.c:74-82 | afterwards the disk equals the logical contents, which have not changed |
| SectorCache.Cache.Set | src/block/hd.c:84-139 | the logical contents change at one sector only; every entry stays in its own bucket once, at most six to a bucket, clean ones equal to the disk; the disk changes only by write-backs; the sectors cached are those before, with this one added as WithKey says |
| SectorCache.WithKeyIs | src/block/hd.c:116-137 | the sector is cached afterwards; all others stay while there are at most five in its bucket, and of six the oldest goes |
| SectorCache.SameKeysHas | src/block/hd.c:60-113 | where the lists of sectors are the same the same sectors are cached |
| SectorCache.Cache.Evict | src/block/hd.c:124-137 | dropping the oldest entry of a bucket does not change the logical contents |
| SectorCache.Cache.Append | src/block/hd.c:116-137 | a new entry, with an eviction when the bucket is full, changes the logical contents at its sector only |
| SectorCache.Cache.Overwrite | src/block/hd.c:102-113 | replacing a cached sector changes the logical contents there only |
| SectorCache.Cache.Store | src/block/hd.c:323-351 | a change in place, written through at once with O_SYNC |
| SectorCache.Cache.StoreWhole | src/block/hd.c:284-309 | a whole uncached sector is replaced without reading it |
| SectorCache.AllCleanView | src/block/hd.c:74-82 | when every entry is clean the logical contents are the disk |
| SectorCache.WriteBackSeen | src/block/hd.c:60-72 | what a write-back puts on the disk is what readers saw |
| HdDevice.Fetch | src/block/hd.c:160-180 | a fill caches the sector as the disk has it, fails with -ENOMEM exactly without memory and with -EIO exactly if the drive fails, and never changes the logical contents |
| HdDevice.LookUp | src/block/hd.c:203-220 | a cached sector is found without a change unless a signal comes; another is fetched first, and only then can memory or the drive fail |
| HdDevice.Read | src/block/hd.c:182-249 | for every offset, count, sector size and behaviour of signals, memory and drive: the bytes returned are the logical bytes of the range and nothing changes; without signals and failures at its sectors exactly Min(count, SSIZE_MAX, size - offset) bytes; with all sectors cached never -EIO or -ENOMEM; otherwise it ended at one sector of the range, after everything before it, for a cause there |
| HdDevice.ReadRange | src/block/hd.c:198-248 | the loop over sectors, with unaligned ends and early ends |
| HdDevice.RoundUp | src/block/hd.c:199-199 | the rounded-up last sector is passed exactly when the byte range ends |
| HdDevice.SpanOf | src/block/hd.c:198-200 | the bounds of the loop take in exactly the sectors with a byte of the range |
| HdDevice.CalmIsFull | src/block/hd.c:182-359 | without a signal or a failure at its sectors a transfer is complete |
| HdDevice.ErrorHasCause | src/block/hd.c:182-359 | -EIO and -ENOMEM, and -EINTR or a short count, each come from a failure or a signal at a sector of the range |
| HdDevice.FullHeeds | src/block/hd.c:182-359 | a transfer is complete only if no signal was found on coming to any sector of its range |
| HdDevice.Write | src/block/hd.c:251-359 | for every offset, length, sector size and behaviour of signals, memory and drive: exactly the bytes from the offset on, as many as written, take the caller's values; with O_SYNC they are on the disk too; without signals and failures at its sectors exactly Min(length, SSIZE_MAX, size - offset) bytes; with all sectors cached never -EIO or -ENOMEM; otherwise it ended at one sector of the range, with everything before it changed already, for a cause there |
| HdDevice.WriteRange | src/block/hd.c:267-358 | the loop over sectors, whole and partial, with early ends |
| HdDevice.WriteSector | src/block/hd.c:272-355 | one sector's part of the range is replaced and nothing else; a whole sector is never read, so that it cannot give -EIO |
| HdDevice.ReadBack | src/block/hd.c:182-359 | what a write put on the drive is what a read of the range returns |
| CowFork.Machine.Execute | src/kernel_fork.c:15-169 | over every run of page additions, removals, stores and forks by any processes, each process sees what it would see if fork copied every page at once, whichever pages the allocator duplicates |
| CowFork.Machine.Fork | src/kernel_fork.c:147-169 | the child sees a copy of every page of the parent, and nobody sees another change; unless the allocator duplicates, no frame is used for it |
| CowFork.Machine.ForkPage | src/kernel_fork.c:147-169 | one page is shared read-only or duplicated, keeping counts equal to mappings; shared pages have one frame |
| CowFork.Machine.Downgrade | src/kernel_fork.c:151-154 | a writable page becomes read-only and marked, and looks the same |
| CowFork.Machine.ShareFrame | src/kernel_fork.c:156-166 | a counted reference gives the child the same contents |
| CowFork.Machine.UseDuplicate | src/kernel_fork.c:156-166 | a duplicate instead of a reference does too |
| CowFork.Machine.CowFault | src/kernel_fork.c:15-31 | a write fault is handled exactly for pages that were writable before the fork, and changes nothing that is seen |
| CowFork.Machine.Write | src/kernel_page_fault.c:180-181 | a store reaches the writer's page only, and is refused exactly on read-only pages |
| CowFork.CopiedIs | src/kernel_fork.c:34-180 | eager copying, the reference, touches the child's pages only |
| CowFork.Effect | src/kernel_fork.c:15-169 | what each operation of the reference does to a page: a store changes one byte of a writable page, a fork gives the child the parent's pages, and nobody else's pages change |
| CowFork.Isolated | src/kernel_fork.c:15-169 | over every run, what a process sees changes by its own operations only |
| RangeLocks.LockTable.GetLock | src/fs/fs.c:811-834 | the first entry in the way: one is found exactly if another owner has a lock on a byte of the request and not both are for reading |
| RangeLocks.HitsIffOverlap | src/fs/fs.c:823-831 | the comparisons of starts and ends say whether two ranges share a byte |
| RangeLocks.RefusedBytes | src/fs/fs.c:811-834 | the tests of owners, kinds, starts and ends say that |
| RangeLocks.LockTable.CutEntry | src/fs/fs.c:853-909 | one entry is removed, trimmed or split, and the walk goes on behind it |
| RangeLocks.LockTable.CutOut | src/fs/fs.c:852-910 | the walk cuts the request out of the whole list |
| RangeLocks.LockTable.AddLock | src/fs/fs.c:836-917 | refused exactly if another owner has a lock on a byte of the request and not both are for reading, and then nothing changes; otherwise the list becomes Granted |
| RangeLocks.CutCovers | src/fs/fs.c:853-909 | what is left of an entry covers what it covered outside the request, except for the lost tails |
| RangeLocks.GrantedHolds | src/fs/fs.c:836-917 | who holds what at a byte after a granted request |
| RangeLocks.GrantedFine | src/fs/fs.c:836-917 | entries of one owner stay disjoint and conflicting entries of different owners never overlap |
| RangeLocks.Exclusion | src/fs/fs.c:811-917 | an exclusive lock on a byte excludes every other lock on it |
| RangeLocks.PromiseIff | src/fs/fs.c:852-917 | the byte map changes exactly on the request's range if and only if no own entry to the end of the file loses its tail |
| RangeLocks.TailLost | src/fs/fs.c:863-876 | an example of the loss |
| RangeLocks.NormalizedCovers | src/fs/fs.c:950-960 | which start and length are accepted, and which bytes they mean |
| Malloc.Heap.Malloc | libc/src/malloc.c:45-86 | for every size: fails, with the heap unchanged, exactly when no free chunk has the bytes that line 52 asks for; otherwise, if the size does not wrap around there, a new aligned block at the first chunk that has, inside the heap and disjoint from the old ones, which keep their bytes; and if it does wrap around, the heap is the headers of no list of chunks |
| Malloc.Heap.FindFit | libc/src/malloc.c:51-66 | the first chunk that passes the test, if any |
| Malloc.NoRoomBytes | libc/src/malloc.c:51-66 | no chunk passes the test exactly if every free one is smaller |
| Malloc.FirstFitBytes | libc/src/malloc.c:51-66 | the chunk that passes first is free and large enough, and all free ones before it are smaller |
| Malloc.Heap.Search | libc/src/malloc.c:50-66 | the retries after growing the break end, since the break is bounded, and find what the first pass finds |
| Malloc.Heap.Take | libc/src/malloc.c:67-82 | where the size does not wrap around, the chunk is split, its neighbours linked, and all other chunks kept |
| Malloc.Heap.TakeWrapped | libc/src/malloc.c:67-82 | where it does, the new header lands before the end of the chunk's own header and no list of chunks is left, whatever the overwritten fields read as |
| HeapWreck.WreckBreaks | libc/src/malloc.c:67-82 | a header written over or just before that of a chunk, and a pointer to it stored in the chunk and anywhere else, leave no list: reading the heap from its start leads to that chunk, and from there back |
| Malloc.Heap.Free | libc/src/malloc.c:94-154 | the block is gone and every other block keeps its bytes; its memory and that of a free chunk behind it lie in one free chunk, and so does that of a free chunk before it unless the one behind is free and the last; every stretch that was free still is; two free chunks come to lie side by side exactly then |
| HeapJoin.FreeJoins | libc/src/malloc.c:114-150 | what free does to the list: which stretches are free in one chunk, whether the header stays, and when two free chunks are left side by side |
| HeapJoin.Joined | libc/src/malloc.c:116-150 | the freed chunk is joined with a free successor, and with a free predecessor unless line 138 leaves |
| HeapJoin.NothingLost | libc/src/malloc.c:116-150 | every stretch that was free still is |
| HeapJoin.HeaderStays | libc/src/malloc.c:116-150 | the header of the freed chunk stays in the list exactly if it is not joined with its predecessor |
| HeapJoin.CoalescedNoTwoFree | libc/src/malloc.c:116-150 | free keeps the list without two free chunks side by side unless it leaves at line 138 with a free chunk in front |
| HeapJoin.SplitNoTwoFree | libc/src/malloc.c:67-82 | malloc keeps it so |
| HeapJoin.StretchRoom | libc/src/malloc.c:51-66 | a request that fits into a free stretch finds a chunk |
| Malloc.Heap.Coalesce | libc/src/malloc.c:116-150 | the headers are changed to those of the joined list; no block changes |
| Malloc.Heap.MergeNext | libc/src/malloc.c:121-148 | a free chunk swallows the free one behind it; no block changes |
| Malloc.Heap.Realloc | libc/src/malloc.c:156-178 | for every size: failure keeps everything; a size that wraps around leaves no list of chunks; so does one of the last three sizes with an old block that is not empty and does not begin with the byte 'M'; with a size that is not one of these, or an empty old block, a new block holds the common prefix of the old one, the old one is gone and all other blocks keep their bytes |
| Malloc.Heap.Overrun | libc/src/malloc.c:171-174 | the copy into a block of no bytes begins on the header behind it, and if its first byte is not 'M' no list of chunks is left |
| HeapWreck.MagicBreaks | libc/src/malloc.c:171-174 | with another byte where the magic of a chunk has to begin the heap is the headers of no list |
| Malloc.MallocBreaks | libc/src/malloc.c:45-86 | malloc(-8) on a fresh heap leaves no list of chunks |
| Malloc.ReallocBreaks | libc/src/malloc.c:156-178 | realloc(p, -1) of a block of four bytes leaves none |
| Malloc.FreeGivesBack | libc/src/malloc.c:45-154 | malloc(0x7000000), free and malloc(0x7800000) on a fresh heap succeed |
| Malloc.FreeLeavesTwo | libc/src/malloc.c:134-140 | two blocks at the start of a fresh heap, freed in order, leave two free chunks side by side |
| Malloc.Heap.Sbrk | src/kernel_syscall.c:140-159 | the break moves unless it would pass its bound |
| Malloc.Heap.constructor | libc/src/malloc.c:35-43 | one free chunk that is first and last |
| Malloc.WrapAround | libc/src/malloc.c:47-52 | which sizes round to zero, and which wrap around in the sum of line 52 and to what |
| Malloc.BlocksApart | libc/src/malloc.c:45-154 | blocks in use never overlap |
| HeapImage.SplitTile | libc/src/malloc.c:67-82 | a split still tiles the heap |
| HeapImage.MergeTile | libc/src/malloc.c:121-148 | a merge still tiles the heap |
| HeapImage.SplitHolds | libc/src/malloc.c:67-82 | the headers after a split are those of the new chunks: next and prev inverse, one last chunk, and it is free |
| HeapImage.MergeHolds | libc/src/malloc.c:121-148 | the same after a merge |
| RwSpinlock.Safety | src/kernel_sync_primitives.c:107-148 | in every state of every run a writer is alone, the count is the readers inside plus at most one waiting first reader, no release panics, and critical-section counters are those of the thread's position |
| RwSpinlock.StepInv | src/kernel_sync_primitives.c:107-148 | every atomic step keeps the invariant behind it |
| RwSpinlock.DowngradeJams | src/kernel_sync_primitives.c:144-148 | the one step that jams the lock is a downgrade while the count is not zero |
| RwSpinlock.JamForever | src/kernel_sync_primitives.c:107-148 | in a jammed lock the waiting reader never enters and no reader ever leaves |
| RwSpinlock.DowngradeDeadlock | src/kernel_sync_primitives.c:107-148 | a run of two threads into a state in which neither can move |
| RwSpinlock.Progress | src/kernel_sync_primitives.c:107-142 | unless the lock is jammed, some thread that is not idle can go on |
| RwSpinlock.Drains | src/kernel_sync_primitives.c:107-148 | without new operations a lock that is not jammed comes to rest with all threads idle, in a bounded number of steps, whatever their order |
| RwSpinlock.NeverJams | src/kernel_sync_primitives.c:107-142 | no run without downgrade jams |
| RwSpinlock.ReadsAlone | src/kernel_sync_primitives.c:107-117 | on a free lock a thread reads after six steps and holds the write lock for all readers |
| RwSpinlock.ReadsWithOthers | src/kernel_sync_primitives.c:107-117 | where others read one more can, without waiting for them |
| RwSpinlock.LeavesOthers | src/kernel_sync_primitives.c:119-132 | one of several readers leaves after four steps |
| RwSpinlock.LeavesLast | src/kernel_sync_primitives.c:119-132 | the last reader leaves after five and frees the write lock |
| RwSpinlock.WritesAlone | src/kernel_sync_primitives.c:134-142 | on a lock without holder a thread writes after two steps and leaves with one more |
| RwSpinlock.TwoRead | src/kernel_sync_primitives.c:107-117 | two threads read at the same time |
| Scheduler.Fair | src/kernel_sched.c:433-557 | a thread other than the idle one that is RUNNABLE, in a process that is not stopped or in a critical section, whenever the scan comes to it until it is chosen, is chosen within (threads ahead of it + 1) times (most processes) calls, whatever sleeps, wakes, is signalled or is created, also during the calls |
| Scheduler.Nearer | src/kernel_sched.c:433-557 | every call that chooses another thread brings it nearer by the measure of that bound |
| Scheduler.ReadyTaken | src/kernel_sched.c:515-528 | a RUNNABLE thread other than the idle one, whose process is not stopped or that is in a critical section, is chosen unless the scan stops ahead of it |
| Scheduler.ChosenReady | src/kernel_sched.c:515-528 | a thread chosen was RUNNABLE, and in a critical section if its process was stopped, and no such thread comes before it |
| Scheduler.IdleOnlyThen | src/kernel_sched.c:515-637 | the idle thread is made current exactly if there is no such thread |
| Scheduler.RestedLast | src/kernel_sched.c:433-439 | before the scan the current process is last, and its thread, if it was RUNNING, is RUNNABLE and last in it; all others keep their order |
| Scheduler.ChosenLast | src/kernel_sched.c:526-528 | after it the process and the thread chosen are last, the thread is RUNNING, and all others keep their order |
| Scheduler.ReadyWhenSeen | src/kernel_sched.c:506-525 | a thread that is ready before the call is ready when the scan comes to it, unless a signal has stopped its process |
| Scheduler.CallSane | src/kernel_sched.c:433-577 | a call, with alarms and pending signals delivered in it, keeps the lists well formed, and only the current thread is RUNNING |
| Scheduler.OneRuns | src/kernel_sched.c:433-557 | two RUNNING threads are the same |
| Scheduler.RunSane | src/kernel_sched.c:433-577 | so in every state of every run |
| Scheduler.Scheduler.Schedule | src/kernel_sched.c:391-637 | one call is a legal call: the running thread is put back, signals wake, stop and continue what they do, the first thread that is eligible when the scan comes to it is taken, both lists are rotated, or the idle thread runs; without signals the scan sees the lists as they were left |
| Scheduler.Scheduler.Rest | src/kernel_sched.c:433-439 | the current process, and its thread if running, go to the end |
| Scheduler.Scheduler.Scan | src/kernel_sched.c:444-577 | the first thread in list order that is eligible when the scan comes to it, or none; without signals it sees the lists as they were |
| Scheduler.Scheduler.ScanProcess | src/kernel_sched.c:515-577 | the threads of one process: the first eligible one is taken, and sleepers passed over that are to be cancelled are made RUNNABLE |
| Scheduler.Scheduler.Promote | src/kernel_sched.c:526-528 | the thread is RUNNING, and it and its process go to the end of their lists |
| Scheduler.Scheduler.Deliver | src/kernel_sched.c:506-511 | alarms and pending signals only make threads runnable that do not run, and stop or continue processes |
| Scheduler.Scheduler.PushProcess | src/kernel_sched.c:129-134 | the process is last and the others keep their order |
| Scheduler.Scheduler.PushThread | src/kernel_sched.c:136-141 | the thread is last in its process and the others keep their order |
| Scheduler.Scheduler.AddProcess | src/kernel_sched.c:144-154 | a new process goes last, which is one of the changes allowed between calls |
| Scheduler.Scheduler.AddThread | src/kernel_threads.c:147-147 | a new thread goes last in its process, likewise |
| SleepQueue.Queue.Nanosleep | src/kernel_sched_sleep_queue.c:115-167 | the deadlines gain now + requested behind those not later, the others stay, and the thread sleeps; nothing happens for a time that is not positive |
| SleepQueue.Queue.SchedTick | src/kernel_sched_sleep_queue.c:84-98 | exactly the entries whose deadline has passed are popped in order and woken; the others keep their deadlines; a tick is 976 microseconds unless the product wraps around |
| SleepQueue.Queue.Pop | src/kernel_sched_sleep_queue.c:24-40 | the head goes, and its thread is woken unless it was queued elsewhere since |
| SleepQueue.Queue.RemoveThread | src/kernel_sched_sleep_queue.c:42-82 | a dangling head exactly for a head with a successor; otherwise the deadlines lose that entry only |
| SleepQueue.Queue.Execute | src/kernel_sched_sleep_queue.c:24-167 | over every run of sleeps, ticks, removals, signals and wake-ups by futexes and other queues, either a step removes a head with a successor, and the run stops there, or the queue is that of the deadlines and a sleeper that nothing else happens to is runnable exactly when its deadline has passed, whatever happens to the others |
| SleepQueue.Queue.Wakeup | src/kernel_signals.c:267-270 | a signal makes the thread runnable and its entries out of date |
| SleepQueue.Queue.Unblock | src/futex.c:99-107 | a futex or another queue makes the thread runnable and leaves its entries as they are |
| SleepQueue.NextOwn | src/kernel_sched_sleep_queue.c:24-165 | every step but a wake-up that leaves the magic value alone keeps the entries of a thread apart, and the thread asleep while one of them can still wake it |
| SleepQueue.HeadRemoval | src/kernel_sched_sleep_queue.c:48-61 | an example of the dangling head |
| SleepQueue.Punctual | src/kernel_sched_sleep_queue.c:24-165 | over every run in which nothing else happens to it, a sleeper whose magic value is still its own, and which has no other entry like it, is runnable if and only if its deadline has passed |
| SleepQueue.NeverEarly | src/kernel_sched_sleep_queue.c:24-98 | a thread asleep that no signal, futex or other queue wakes sleeps on until the deadline of an entry of its own has passed, whatever it and others do |
| SleepQueue.InsertedPlace | src/kernel_sched_sleep_queue.c:145-150 | equal deadlines are served first come, first served |
| SleepQueue.DueExactly | src/kernel_sched_sleep_queue.c:90-93 | the entries popped are those due |
| SleepQueue.PutInDeadlines | src/kernel_sched_sleep_queue.c:142-165 | the change of deltas is the insertion of a deadline |
| SleepQueue.TakeOutDeadlines | src/kernel_sched_sleep_queue.c:62-79 | the change of deltas is the removal of a deadline |
| SleepQueue.WakeAllEnough | src/kernel_sched_sleep_queue.c:28-34 | a popped sleeper whose thread still waits for it becomes runnable |
| Futex.NoLostWake | src/futex.c:42-113 | if the word differs from the old value from the moment an unlimited wake takes the lock, nobody is asleep for the old value from its end on, in every interleaving |
| Futex.WaiterSleeps | src/futex.c:42-81 | a waiter that finds the expected value is marked and asleep after five steps, with the lock given up |
| Futex.WaiterReturns | src/futex.c:42-50 | one that finds another value returns after two, and nothing else has changed |
| Futex.StaysCommitted | src/futex.c:42-81 | whatever others do, a waiter that has found the expected value goes to sleep and sleeps on until a signal or the scan of a wake reaches it |
| Futex.TakeInv | src/futex.c:42-113 | every step keeps the lock exclusive, every sleeper findable, and a scan that goes on below its limit |
| Futex.CommitsStop | src/futex.c:42-56 | once the word differs nobody new goes to sleep for the old value |
| Futex.ScanStep | src/futex.c:99-107 | the walk leaves nobody asleep behind it |
| Futex.ScanTurn | src/futex.c:99-107 | a turn of the scan wakes and counts the thread it is at if that waits on the address, touches no other, and ends the scan when the limit is reached |
| Futex.ScanEnd | src/futex.c:99-110 | at the end of the list the scan ends |
| Futex.Process.FutexWake | src/futex.c:91-113 | the first min(limit, LONG_MAX, waiters) waiters are woken, nobody else changes, and that number is returned; a thread that still waits on the address means that the limit was reached |
| Futex.Process.FutexWakeOwnerDead | src/futex.c:137-148 | all waiters for the dead owner are woken and told, nobody else changes |
| SignalFrames.Thread.Interrupt | src/kernel_signals.c:566-687 | a delivery, a handler that is itself interrupted to any depth, and the return restore general registers, instruction and stack pointer, the five status flags, the mask, the floating point state and the context chain, or the thread was terminated; that happens if the stack cannot be used at the delivery or at the return, and only then where the handler is not interrupted |
| SignalFrames.Thread.Dispatch | src/kernel_signals.c:577-631 | an aligned frame below the stack pointer, memory from there on unchanged, the handler entered with its mask, its arguments and the restorer as return address, and the action forgotten exactly with SA_RESETHAND; or termination on a stack pointer outside 0xC0000000 to 0xCFFFFFFF or a stack that is not writable |
| SignalFrames.Thread.WriteFrame | src/kernel_signals.c:596-621 | the frame holds what the handler and the return will read, and nothing above it changes |
| SignalFrames.Thread.Sigreturn | src/kernel_signals.c:663-687 | what the innermost frame saved is back and the frame is gone; or termination on a bad stack |
| SignalFrames.Thread.RestoreContext | src/kernel_signals.c:641-658 | registers from the frame, status flags from the frame, other flags and segments from the caller |
| SignalFrames.Thread.Block | src/kernel_signals.c:599-603 | the new mask never contains KILL, STOP or CONT |
| SignalFrames.MixedFlagsKeep | src/kernel_signals.c:633-646 | exactly the five status flags are taken over |
| SignalFrames.FrameBelow | src/kernel_signals.c:591-594 | the rounded frame lies below the stack pointer by less than 16 bytes more than its size, and below an outer frame even when its return address was popped |
| Qsort.QsortR | libc/src/qsort.c:38-42 | for every total preorder the elements end up sorted and a permutation, for every count and width |
| Qsort.Sort | libc/src/qsort.c:30-36 | the range is sorted and permuted and nothing outside it changes |
| Qsort.Partition | libc/src/qsort.c:13-28 | a split point inside the range with nothing above the pivot value before it and nothing below it after |
| Qsort.Round | libc/src/qsort.c:18-23 | both scans stop inside the range |
| Qsort.FirstSwap | libc/src/qsort.c:13-28 | the first swap overwrites the pivot location with a smaller or equal element and moves the pivot to the far side |
| Qsort.LaterSwap | libc/src/qsort.c:13-28 | later swaps keep both sides right for the new pivot |
| Qsort.Swap | libc/src/qsort.c:5-11 | swapping bytes one by one exchanges two elements and keeps the others |
| Calendar.GmtimeCivil | libc/src/time.c:41-89 | for every time a proper Gregorian date and time of day that name it, month and day agreeing with the day of the year, and the right day of the week |
| Calendar.LeapDay | libc/src/time.c:41-89 | the last second of 29 February 2000, a Tuesday |
| Calendar.BeforeEpoch | libc/src/time.c:41-89 | 24 April 1938, 22:13:20, a Sunday |
| Calendar.YearOfEra | libc/src/time.c:64-69 | the year of the era and the day in it |
| Calendar.MonthOfYear | libc/src/time.c:72-84 | month, day and day of the year agree with the calendar |
| Calendar.YearToTimeOk | libc/src/time.c:100-115 | the start of a year, before and after 1970, and whether it is a leap year |
| Calendar.DateToTime | libc/src/time.c:117-125 | the days before a date of the year |
| Calendar.Mktime | libc/src/time.c:127-138 | the time that the calendar gives the fields |
| Calendar.RoundTrip | libc/src/time.c:41-138 | mktime of gmtime_r of t is t if and only if t lies between the first second of the first year and that of the first year that does not fit an int |
| Calendar.RoundTripFails | libc/src/time.c:41-138 | a 64-bit time that does not come back |
| Calendar.RoundTripBack | libc/src/time.c:41-138 | gmtime_r of mktime of a proper date is that date |
| Calendar.Unique | libc/src/time.c:41-138 | a time is named by one proper date |
| Sha256.Compress | libc/src/crypt.c:131-168 | the loops compute the compression of section 6.2.2 of FIPS 180-4 |
| Sha256.FillSchedule | libc/src/crypt.c:132-139 | the message schedule of section 6.2.2 |
| Sha256Stream.Context.Update | libc/src/crypt.c:116-177 | the context then holds the message with the input appended, for every size of which the sum at line 118 does not wrap around; otherwise the copy goes past the buffer |
| Sha256Stream.Context.Finalize | libc/src/crypt.c:179-189 | the digest of the padded message, with the caller's context unchanged |
| Sha256Stream.Context.PadBlock | libc/src/crypt.c:89-110 | the padding is appended |
| Sha256Stream.SplitsAgree | libc/src/crypt.c:116-177 | contexts holding the same message are the same |
| Sha256Stream.Feed | libc/src/crypt.c:116-177 | feeding a message in pieces or whole leaves the same state |
| Sha256Stream.PadStandard | libc/src/crypt.c:97-105 | the padding is that of section 5.1.1 if and only if the length is not 55 modulo 64 and below 2^29 |
| Sha256Stream.PadFails | libc/src/crypt.c:97-105 | the message of 55 bytes gets another padding |
| Sha256Stream.PadFits | libc/src/crypt.c:97-99 | the padding always completes a block |
| Sha256Words.Sha256Sum | libc/src/crypt.c:191-226 | salt and key give the SHA-256 digest of section 6.2 whenever the padding is standard |
| Sha256Standard.Rotations | libc/src/crypt.c:60-86 | the four functions are the rotations and shifts of section 4.1.2 |
| Sha256Standard.Choice | libc/src/crypt.c:67-69 | each bit of the first word chooses between the bits of the other two |
| Sha256Standard.Majority | libc/src/crypt.c:70-72 | each bit is the one that two of the three words have |
| Sha256Standard.CubeRoots0 | libc/src/crypt.c:30-39 | constants 0 to 15 are the digits behind the point of the cube roots of the primes |
| Sha256Standard.CubeRoots1 | libc/src/crypt.c:30-39 | constants 16 to 31 are the digits behind the point of the cube roots of the primes |
| Sha256Standard.CubeRoots2 | libc/src/crypt.c:30-39 | constants 32 to 47 are the digits behind the point of the cube roots of the primes |
| Sha256Standard.CubeRoots3 | libc/src/crypt.c:30-39 | constants 48 to 63 are the digits behind the point of the cube roots of the primes |
| Sha256Standard.SquareRoots | libc/src/crypt.c:19-28 | the initial values are those of the square roots of the first eight primes |
| ExecStack.SafeArgvDup | src/kernel_exec_argv.c:52-108 | with mapped addresses accepted exactly when everything fits ARG_MAX; the image has the layout of section 2.3.1 of the psABI and a size that is a multiple of 16 |
| ExecStack.VectorCheck | src/kernel_exec_argv.c:20-50 | the size a vector needs, nothing for a null pointer, or why it is refused: with mapped addresses -EFAULT exactly when the pointers alone do not fit, and otherwise -E2BIG |
| ExecStack.PutWord | src/kernel_exec_argv.c:79-103 | the four bytes of a word, lowest first, and no others |
| ExecStack.CopyStrings | src/kernel_exec_argv.c:91-104 | every string and its pointer are in place, and the two internal assertions hold |
| ExecStack.Decoded | src/kernel_exec.c:130-134 | decoding the image at its load address gives back argc, argv, envp and the auxiliary entries |
| ExecStack.NoOverlap | src/kernel_exec_argv.c:91-104 | the strings that the pointers of the image lead to overlap neither each other nor the tables |

## Left out

- Red-black tree: freeing and printing a tree; keys are natural numbers rather than 32-bit words; nothing is said of the links after a fault.
- Sector cache: concurrent calls and the cache lock, and failing disk writes; whether a signal has come, memory is found or the drive fails is an input, by the sector and by whether it is looked up for the first or the second time; the hash of device and sector is any function into the buckets, offsets are not negative.
- Copy-on-write fork: shared and file mappings, the page directories and running out of frames; a frame is found whenever one is needed, and whether the allocator counts a reference or duplicates a page is an input.
- Range locks: waiting for a lock, closing files and failing allocation; owners are processes or open files.
- RangeLocks.LockTable.AddLock: unlocking also runs the conflict test of line 837, so its promises hold for calls that return 0.
- Malloc.Heap.Malloc: the mutex is not modelled, and of a heap that holds no list any more nothing else is said; bytes below the start of the heap, which a wrapped size can reach, are not part of it.
- Malloc.Heap.Realloc: ends where the heap holds no list any more, after malloc or after the copy, and does not follow free on it; when the copy of line 174 runs over a header and the old block begins with 'M', as the header does, nothing is promised, since a copy of the very bytes of the header leaves the list as it is.
- Malloc.Heap.Free: pointers that are not blocks, for which the code ends the process.
- Heap headers are the magic and nine bytes that know whether they are flags or a byte of which pointer, so that overwriting one with another destroys it; such a byte is taken to differ from every byte of data; a byte read as something it is not is arbitrary; addresses count from the start of the heap.
- RwSpinlock: interrupt flags and the phase before the scheduler starts; counts are unbounded, which 2^32 threads would be needed to notice.
- Scheduler: processes and threads being torn down, also by a signal, and context switching; which threads alarms and pending signals wake, and which processes they stop or continue, is an input of the call, and so is which sleepers are to be cancelled; calls that find the scheduler lock taken return at once and are not counted.
- SleepQueue: the clock and flag checks of sys_clock_nanosleep, its return path and thread reference counts; the queue lock makes every operation one step; magic values are unbounded.
- SleepQueue.Queue.SchedTick: time is what line 88 computes, so that a tick whose product wraps around in 32 bits counts as the less time it computes.
- SleepQueue.Queue.RemoveThread: nothing is promised about a queue whose head was freed.
- Futex: timed waits, the checks of the owner and of addresses, and the wake-up at thread exit in the step model, where FutexWakeOwnerDead is proved on its own.
- SignalFrames: default actions, Virtual-8086 tasks, the value of GET_SIG_MASK for real-time signals and the contents of siginfo; a memory cell holds a whole field.
- Qsort: element pointers are element numbers; the comparison function must be a total preorder, as the C standard asks.
- Calendar: int overflow of absurd field values in mktime, and time zones, which the library does not have.
- SHA-256: what a copy past the buffer overwrites, and the text format of crypt(). The compression is a function value in the context, and Compress computes it. No digest of a message is worked out.
- ExecStack: another thread changing the vectors between check and copy, and a negative descriptor.
- Everything that talks to hardware (ports, interrupt controllers, video, keyboard, serial lines) and the console, which have nothing to prove above the instruction level.
- The thread queue of src/kernel_sched_queue.c: line 29 takes the dequeued successor's link instead of the old tail, so it is not a first-in-first-out queue.
- ELF loading, mounting, inode lookup, pipes and processes' families: they rest on parts that are not part of this model.
- printf, strtod, ctype, passwd parsing and system call wrappers: they would only add easy members.
