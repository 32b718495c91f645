# ObeliskOS kernel: a verified model

This project models the parts of the ObeliskOS kernel that keep invariants in mutable
structures, and proves what those parts promise over all inputs and all runs. The C code works
in place, so the models do too: tree nodes, page tables, freelists, run queues, ring indices and
connection records are fields and arrays that methods update, and every method is proved against a
specification of the old and the new state.

The main results:

- **Red-black tree** (`RbShape`, `RbTree`). Linking, `rb_insert_color` and `rb_erase` keep a
  parent-linked tree red-black and change the in-order sequence by exactly one node. The fix-up loops
  are proved on a zipper (the path above the current node together with its subtree), so each round is
  a rewriting of a tree value. Neither loop ever follows a null sibling or grandparent.
- **Caches** (`TreeIndex`, `LruTree`, `BlockCache`, `LruRuns`, `PolicyCache`). Tree, list and counter
  refine one bounded list in order of use. Over every run of careful clients, from the creation of the cache
  on and with failing allocations, a hit returns the bytes last put; storing twice breaks this, and the exact
  condition is proved. A smaller cache always holds a prefix of what a larger one holds.
- **Memory** (`Pmm`, `Areas`, `VmaList`, `Vmm`, `Fork`, `Protection`, `Ownership`). The linked list of areas refines
  a map from addresses to backing; unmapping is removal, fixed mapping is override, free mapping takes
  the lowest gap, and every mapping succeeds under an exact condition. `Ownership.Machine` holds any number of
  address spaces over one physical memory. Every run of mapping, unmapping, faulting, storing and forking is a sequence of
  steps on the whole machine. In it no frame has two owners, no frame appears from nowhere, a process that does nothing
  itself goes on seeing the same areas and the same bytes, and a page can be written exactly if it lies in an area that
  allows it. A forked child sees the same bytes in frames of its own, and can write where its parent can.
- **Slab allocator** (`Slab`, `Kmem`). The freelist chain visits exactly the unused indices; objects
  never overlap; freeing through any cache returns the object to its one owner. A second free closes
  the freelist into a circle, and this is the only way to spoil the heap by freeing.
- **TCP** (`Tcp`, `TcpRuns`). Over a network that loses, repeats and reorders, what either side has
  taken is a prefix of what the other side sent, a retransmission always carries the same bytes, and no segment ever
  acknowledges a byte that was not taken; the answer to a segment acknowledges exactly the bytes taken so far. This is
  proved of the protocol as a state machine and, through `TcpRuns.Session`, of the connection object itself.
- **Virtqueue** (`Virtq`), **DHCP** (`Dhcp`), **Internet checksum** (`Checksum`).
- **Scheduler** (`Sched`). What every operation keeps, and bounded waiting under every interleaving, up to the
  event that makes a better task ready.
- **Policy protocol** (`MsgQueue`, `Policy`). A decision is the daemon's own timely answer to exactly this request, or
  "default" for reading and executing and "deny" for everything else.
- **Exec** (`UserMemory`, `Relr`, `StackInit`). Packed relocations equal the plain list; a program
  that starts on the initial stack finds its arguments, its environment and every entry of the auxiliary vector.
- **User database** (`Passwd`). Printing and parsing undo each other.

`Common`, `Arith` and `Lists` hold shared types and facts.

## Where a promise does not hold

Each of these is kept as the code has it, shown by a lemma or a contract, and paired with the exact
condition under which the promise does hold.

- Storing a block that is already cached leaves a stale second copy (`LruRuns.StoreTwice`); the cache
  keeps one copy per number if and only if the number is not among the blocks that stay
  (`LruRuns.StoreUnique`).
- `vmm_munmap` removes exactly the range if and only if no area has to be split without memory and the
  rounded end does not reach 2^64, or nothing was mapped in the range (`Areas.UnmapExact`).
- A mapping length within the last page below 2^64 rounds to zero (`Vmm.LengthWraps`), which puts an
  empty area into the list. At a free place an empty area at its very start is the only thing that is in the way
  of a mapping (`Areas.BlockedByEmpty`), so the search for a gap can end at a place that is then refused.
- A fork does not look at the result of inserting the child's areas. The child has the parent's map if and only
  if every area of the parent that is not empty starts after all areas before it (`Fork.Clone`);
  `Fork.EmptyAreaDropsNext` gives the requests that lead to a list where this fails. The page of the lost area stays, in no
  area, so the agreement of pages and areas (`Protection.Guarded`) is kept by every run in which no mapping length wraps
  (`Ownership.Machine.Run`).
- A fork ignores a failed page-table update: that page is missing in the child and its frame is lost. No frame is
  lost if and only if every present page that lies in an area gets its table (`Fork.Clone`).
- A file mapping that was accepted and cannot be filled takes every page of its range away, also pages that were there
  before without an area; any other failure leaves the pages, apart from a cleared fixed range
  (`Vmm.AddressSpace.Mmap`). `Vmm.LosesPage` gives the input, and `Vmm.LeavesAll` the exact condition under which
  a failure leaves all pages.
- A memory region whose end or start wraps around 2^64 is marked wrongly; the exact conditions are
  `Pmm.FreedExact` and `Pmm.UsedExact`.
- A second free of an object whose slab still has objects in use goes unnoticed. The heap stays valid if and only
  if the object was in use, or lies in no slab with objects in use (`Kmem.Heap.Free`, `Slab.PutEnds`).
- Index wrap agrees with the ring size if and only if the size divides 2^16 (`Virtq.WrapAgrees`).
- A full acknowledgement across a wrap of the sequence numbers is ignored; it is seen if and only if the
  segment does not wrap (`TcpRuns.FullAckIsSeen`).
- The end of the peer's stream is reported as soon as a FIN arrives, even out of order; `TcpRuns.EndsEarly` is such
  a run. All bytes are there if and only if the end was taken before, or the FIN is in order and its payload fits the
  buffer (`TcpRuns.FinIsWhole`).
- Changing the priority of a running task puts it on a queue while it runs: the scheduler stays valid if
  and only if the task is not running (`Sched.Scheduler.SetPriority`).
- A response left over from an earlier policy query is taken first, so the next query falls back. A prompt answer
  gets through if and only if the daemon is connected, no response is left over, both queues have room and there is
  memory (`Policy.Kernel.AskDaemon`).
- An access check does not ask whether the daemon has connected since, so it can answer with the fallback
  although a daemon is there (`Policy.Kernel.CheckAccess`); after the refresh that its callers do, it does not
  (`Policy.Kernel.Decide`).
- Adding a member to a group whose list is nearly full is refused or stores a cut-off name; it is set insertion
  if and only if the user is present or the longer list fits (`Passwd.AddMember`).
- Printing a user entry writes separators, line end and zero byte without a test: they stay inside the buffer if and
  only if the whole line fits (`Passwd.FormatLine`).
- A slab cache cannot be created exactly for the sizes whose slab has no room for the freelist
  (`Slab.CreationFails`), and objects have different addresses exactly when their size is not zero
  (`Slab.AddressesDiffer`).
- A user number of 2^32 or more can be read as a small one; an accepted number is the written one if and
  only if that one is within the limit (`Passwd.ScanExact`, `Passwd.ScanWraps`).

## Modelling choices

- A tree or list node embedded in an entry is a map from the node to the entry.
- The success of memory allocations, of frame transmission and of page-table construction, the clock,
  file contents and what the daemon, the peer or the device does are parameters of the operations.
- A page table is a map from page addresses to frames and flags. A bitmap is an array or sequence of
  booleans, and the search for the lowest set bit is a scan.
- A store by a user program is what the hardware lets it do: it changes a byte of a present, writable page.
- Integers are unbounded; where the width matters the wrap is written out.

## Model

| member | source | states |
|---|---|---|
| `RbShape.PlugBalanced` | kernel/lib/rbtree.c:101-153 | a context that is balanced for a height, filled with a balanced subtree of that height, is a red-black tree |
| `RbShape.CutBalanced` | kernel/lib/rbtree.c:234-305 | cutting any subtree out of a red-black tree leaves a balanced subtree and a context balanced for its height |
| `RbShape.InOrderPlug` | kernel/lib/rbtree.c:340-381 | the in-order sequence of a tree is what lies before the subtree, the subtree, and what lies after it |
| `RbShape.RotationInOrder` | kernel/lib/rbtree.c:45-96 | a rotation keeps the in-order sequence |
| `RbShape.RotationDistinct` | kernel/lib/rbtree.c:45-96 | a rotation keeps the nodes distinct, in both directions |
| `RbShape.RepaintStep` | kernel/lib/rbtree.c:110-116 | recolouring parent, uncle and grandparent moves a red-red violation two levels up and keeps everything else balanced |
| `RbShape.RotateRightStep` | kernel/lib/rbtree.c:125-127 | the final rotation of an insertion restores the red-black properties |
| `RbShape.RotateLeftStep` | kernel/lib/rbtree.c:146-148 | the mirror image of the final rotation restores the red-black properties |
| `RbShape.SiblingExists` | kernel/lib/rbtree.c:162-174 | a subtree that lacks one black node always has a sibling |
| `RbShape.SuccessorOrder` | kernel/lib/rbtree.c:243-249 | the leftmost node of the right subtree is the in-order successor |
| `RbShape.SuccessorBalance` | kernel/lib/rbtree.c:242-281 | moving the successor up leaves at most one missing black node, at the place it left |
| `RbShape.WithoutRoot` | kernel/lib/rbtree.c:234-305 | replacing a node by its joined subtrees removes exactly that node from the in-order sequence |
| `RbShape.InOrderDistinct` | kernel/lib/rbtree.c:340-381 | the in-order sequence of a tree of distinct nodes has no repetition |
| `RbTree.RotateLeft` | kernel/lib/rbtree.c:45-68 | the pointer updates perform the rotation of the represented tree and touch nothing else |
| `RbTree.RotateRight` | kernel/lib/rbtree.c:73-96 | the pointer updates perform the mirrored rotation and touch nothing else |
| `RbTree.LinksPlug` | kernel/lib/rbtree.c:19-40 | child and parent links represent a tree exactly when they represent its context and its subtree |
| `RbTree.GrandparentExists` | kernel/lib/rbtree.c:104-107 | a red parent is never the root, so the grandparent that the loop reads exists |
| `RbTree.InsertStepLeft` | kernel/lib/rbtree.c:107-127 | one round of the insertion loop ends the violation or moves it up, keeping order and black heights |
| `RbTree.InsertStepRight` | kernel/lib/rbtree.c:128-149 | the mirrored round of the insertion loop |
| `RbTree.InsertColor` | kernel/lib/rbtree.c:101-153 | after linking a red leaf the tree is red-black again with the same in-order sequence |
| `RbTree.EraseStepLeft` | kernel/lib/rbtree.c:163-192 | one round of the deletion loop removes the missing black node or moves it up; the sibling is never null |
| `RbTree.EraseStepRight` | kernel/lib/rbtree.c:193-223 | the mirrored round of the deletion loop |
| `RbTree.EraseColor` | kernel/lib/rbtree.c:158-229 | the deletion loop terminates with a red-black tree of the same in-order sequence |
| `RbTree.EraseInner` | kernel/lib/rbtree.c:242-304 | taking out a node with two children puts its successor in its place |
| `RbTree.EraseOuter` | kernel/lib/rbtree.c:238-304 | taking out a node with at most one child splices it out |
| `RbTree.Erase` | kernel/lib/rbtree.c:234-305 | for every valid tree and every node in it, the result is a valid red-black tree with the in-order sequence minus that node |
| `RbTree.LinkNode` | kernel/lib/rbtree.c:34-40 | a new red leaf is linked at the given slot and nowhere else |
| `RbTree.First` | kernel/lib/rbtree.c:310-320 | returns the first node of the in-order sequence, or null for the empty tree |
| `RbTree.Last` | kernel/lib/rbtree.c:325-335 | returns the last node of the in-order sequence, or null for the empty tree |
| `RbTree.Next` | kernel/lib/rbtree.c:340-358 | returns the node after the given one in the in-order sequence, null at the end |
| `RbTree.Prev` | kernel/lib/rbtree.c:363-381 | returns the node before the given one in the in-order sequence, null at the start |
| `TreeIndex.Index.Find` | kernel/fs/axiomfs/cache.c:69-87 | the descent finds a node with the key if and only if there is one |
| `TreeIndex.Index.FindSlot` | kernel/fs/axiomfs/cache.c:128-141 | the descent ends at the slot after every key not above the new one |
| `TreeIndex.Index.Insert` | kernel/fs/axiomfs/cache.c:127-144 | inserting keeps the tree red-black and ordered and adds exactly one key |
| `TreeIndex.Index.Remove` | kernel/fs/axiomfs/cache.c:105-105 | removing keeps the tree red-black and ordered and drops exactly one key |
| `LruTree.Lru.Use` | kernel/fs/axiomfs/cache.c:81-83 | the used item moves to the front of the list of items; the others keep their order |
| `LruTree.Lru.Drop` | kernel/fs/axiomfs/cache.c:105-109 | exactly one item leaves tree, list and counter |
| `LruTree.Lru.Evict` | kernel/fs/axiomfs/cache.c:96-110 | exactly the least recently used items go, until one more fits |
| `LruTree.Lru.Add` | kernel/fs/axiomfs/cache.c:127-147 | the new item is in tree and counter and at the front of the list |
| `BlockCache.Cache.constructor` | kernel/fs/axiomfs/cache.c:37-51 | a new cache is valid and empty |
| `BlockCache.Cache.Get` | kernel/fs/axiomfs/cache.c:68-91 | a hit returns the stored bytes and moves the block to the front; a miss means that no cached block has the number |
| `BlockCache.Cache.Put` | kernel/fs/axiomfs/cache.c:93-150 | the block is stored in front and exactly the least recently used blocks beyond the limit are evicted; an allocation failure only evicts |
| `BlockCache.Cache.Invalidate` | kernel/fs/axiomfs/cache.c:152-172 | one block with the number goes if there is one; everything else keeps its order |
| `LruRuns.StoreUnique` | kernel/fs/axiomfs/cache.c:93-150 | storing keeps block numbers unique if and only if the number is not among the blocks that stay |
| `LruRuns.RunCoherent` | kernel/fs/axiomfs/cache.c:68-172 | over every run of careful clients, with stores that fail for want of memory, each cached block holds the bytes last stored under its number |
| `LruRuns.StoreTwice` | kernel/fs/axiomfs/cache.c:93-150 | a run that stores a cached block again leaves the old bytes in the cache |
| `LruRuns.TouchedIsUse` | kernel/fs/axiomfs/cache.c:68-91 | what a hit does to the cache is the use step of the run |
| `LruRuns.RemovedIsForget` | kernel/fs/axiomfs/cache.c:152-172 | what an invalidation does to the cache is the forget step of the run |
| `LruRuns.Call` | kernel/fs/axiomfs/cache.c:68-172 | each call of the cache object is the step of the run, a failing store included |
| `LruRuns.Drive` | kernel/fs/axiomfs/cache.c:68-172 | the cache object after any careful run from its creation holds each number once, with the bytes last stored |
| `LruRuns.AccessIsUseOrStore` | kernel/fs/axiomfs/cache.c:68-150 | an access of a client is a use, or a store after a miss |
| `LruRuns.SmallerIsPrefix` | kernel/fs/axiomfs/cache.c:68-150 | over every sequence of accesses a smaller cache holds a prefix of what a larger one holds |
| `Pmm.PhysMem.constructor` | kernel/mm/pmm.c:154-198 | every page starts as used and all counters are zero |
| `Pmm.PhysMem.ZoneOf` | kernel/mm/pmm.c:90-97 | every page below the total lies in exactly one zone, no other page in any |
| `Pmm.PhysMem.MarkRegionFree` | kernel/mm/pmm.c:201-227 | exactly the pages of the 64-bit page range become free and the counters follow |
| `Pmm.PhysMem.MarkRegionUsed` | kernel/mm/pmm.c:230-253 | exactly the pages of the 64-bit page range become used and the counters follow |
| `Pmm.FreedExact` | kernel/mm/pmm.c:201-205 | the pages freed are exactly the whole pages inside the region, if and only if no end that matters wraps around |
| `Pmm.UsedExact` | kernel/mm/pmm.c:230-232 | the pages taken are exactly those that touch the region, if and only if no end that matters wraps around |
| `Pmm.PhysMem.FindFree` | kernel/mm/pmm.c:57-64 | the lowest clear bit of the range, if there is one |
| `Pmm.PhysMem.FindFreeRegion` | kernel/mm/pmm.c:67-87 | the lowest run of clear bits of the wanted length, if and only if there is one |
| `Pmm.PhysMem.AllocPageZone` | kernel/mm/pmm.c:256-287 | the lowest free page of the zone leaves the free set, or the zone has none |
| `Pmm.PhysMem.AllocPagesZone` | kernel/mm/pmm.c:305-338 | a contiguous request succeeds if and only if the zone has such a run, and takes the lowest one |
| `Pmm.PhysMem.AllocPage` | kernel/mm/pmm.c:290-302 | the page comes from the preferred zone that has one and was free; no other page changes |
| `Pmm.PhysMem.AllocPages` | kernel/mm/pmm.c:341-352 | the run was free, is the lowest of its zone, and is exactly what leaves the free set |
| `Pmm.PhysMem.FreePage` | kernel/mm/pmm.c:355-384 | the page becomes free; freeing twice or out of range changes nothing, counters included |
| `Pmm.PhysMem.FreePages` | kernel/mm/pmm.c:387-391 | exactly the existing pages of the run become free |
| `Areas.UnmapLookup` | kernel/mm/vmm.c:393-455 | trimming and splitting removes the range from the map and every surviving address keeps its backing and file offset |
| `Areas.UnmapSorted` | kernel/mm/vmm.c:393-455 | trimming and splitting keeps the areas sorted, aligned and disjoint |
| `Areas.InsertLookup` | kernel/mm/vmm.c:206-242 | inserting an area overrides the map on the area and nowhere else |
| `Areas.UnmapExact` | kernel/mm/vmm.c:393-455 | unmapping is exactly removal of the range if and only if no split lacks memory and the rounded end stays below 2^64, or nothing was mapped there |
| `Areas.RoomIsUnblocked` | kernel/mm/vmm.c:206-223 | the two overlap checks at the insertion point fail exactly when some area starts inside the new one or the new one starts inside some area |
| `Areas.BlockedIsIntersects` | kernel/mm/vmm.c:206-223 | among areas that are not empty, what keeps an area out is what meets it |
| `Areas.BlockedByEmpty` | kernel/mm/vmm.c:304-331 | at a place that nothing meets, only an empty area at its very start keeps a mapping out |
| `Areas.StuckIsBlocked` | kernel/mm/vmm.c:324-355 | a fixed range that cannot be cleared for want of memory lies in an area that keeps the mapping out |
| `VmaList.List.Find` | kernel/mm/vmm.c:171-185 | returns the area that contains the address, null if none does |
| `VmaList.List.FindIntersection` | kernel/mm/vmm.c:188-203 | returns the first area that meets the range, null if none does |
| `VmaList.List.Insert` | kernel/mm/vmm.c:206-242 | links the area at its sorted place if and only if no area is in its way, empty areas included; the doubly linked list describes the new sequence |
| `VmaList.List.Remove` | kernel/mm/vmm.c:245-260 | unlinks exactly that area |
| `Vmm.AddressSpace.UnmapPages` | kernel/mm/vmm.c:419-425 | the pages of the range leave the page table and their frames become free |
| `Vmm.AddressSpace.CutArea` | kernel/mm/vmm.c:427-448 | one area is dropped, trimmed at either end, or split, by its position to the range |
| `Vmm.AddressSpace.Munmap` | kernel/mm/vmm.c:393-455 | the areas are those of exact removal, the pages of the range are dropped, and no frame is lost or shared |
| `Vmm.UnmapWindow` | kernel/mm/vmm.c:395-401 | what the rounded range comes to, also when its end wraps to zero |
| `Vmm.AddressSpace.FindGap` | kernel/mm/vmm.c:304-318 | terminates with the lowest fitting gap at or above the heap base, or there is none |
| `Vmm.AddressSpace.AddArea` | kernel/mm/vmm.c:342-355 | the new area overrides the map; it is added if and only if there is memory and no area is in its way, empty areas included |
| `Vmm.AddressSpace.Populate` | kernel/mm/vmm.c:363-387 | every page gets a fresh frame with the bytes of the file and zeros behind them, writable exactly for a writable mapping; it succeeds if and only if there are enough free frames and every page is absent, gets a table and can be read; pages elsewhere and frames in use are untouched |
| `Vmm.AddressSpace.ClearRange` | kernel/mm/vmm.c:324-331 | a fixed mapping first removes what lies in its range |
| `Vmm.AddressSpace.ChoosePlace` | kernel/mm/vmm.c:286-322 | the place is the requested one for a fixed mapping and the lowest gap otherwise; it is refused exactly for invalid requests |
| `Vmm.AddressSpace.Mmap` | kernel/mm/vmm.c:280-390 | success is map override at the right place, with pages that hold what the file has and are writable exactly if the request asks for it, under an exact condition; failure leaves the map as it was, without the range exactly when a fixed one could be cleared, and a page table that is determined by the request; pages outside the range and frames of others keep entries and bytes; frames are conserved |
| `Vmm.RequestedMeans` | kernel/mm/vmm.c:333-340 | the area of a request has the wanted protection and a flag for each kind of access and sharing that was asked for, and no other |
| `Vmm.PteFlagsAllow` | kernel/mm/vmm.c:267-277 | the page is present and open to user programs, and writable exactly for PROT_WRITE |
| `Vmm.FilledLoaded` | kernel/mm/vmm.c:363-387 | pages filled for a protection begin with what the file has there, are zero behind it, and are writable exactly if the protection says so |
| `Vmm.LeavesAll` | kernel/mm/vmm.c:324-387 | a failed request leaves all pages if and only if no page of its range was there to be cleared or withdrawn |
| `Vmm.LosesPage` | kernel/mm/vmm.c:363-387 | a file mapping over a page that lies in no area is accepted, cannot be filled, and takes the page away |
| `Vmm.PlaceMeans` | kernel/mm/vmm.c:297-318 | a request that can be placed goes where it asks to be, or to the lowest place where it fits |
| `Vmm.ConfinedBytes` | kernel/mm/vmm.c:280-390 | a mapping request leaves every page outside its range its frame, its flags and its bytes |
| `Vmm.UnderneathClear` | kernel/mm/vmm.c:324-355 | among areas that are not empty, a mapping is kept out exactly when its fixed range could not be cleared |
| `Vmm.AddressSpace.CopyFault` | kernel/mm/vmm.c:553-570 | a write fault on a page marked for copying gives it a frame of its own with the same bytes, exactly when a frame is free |
| `Vmm.AddressSpace.Fault` | kernel/mm/vmm.c:534-589 | a fault is served exactly when the area allows it, a frame is free and the page is absent or to be copied; the page is then zeros or a copy and writable exactly if the area is, and otherwise nothing changes |
| `Vmm.LengthWraps` | kernel/mm/vmm.c:295-295 | the rounded length is zero exactly for lengths above 2^64 - 4096 |
| `Fork.CopyPage` | kernel/mm/vmm.c:96-108 | a page is copied into a frame taken from the free ones, with the copy-on-write bit cleared and every other bit as it was; without a table the frame is lost |
| `Fork.PlainUnmarked` | kernel/mm/vmm.c:106-106 | exactly the copy-on-write bit is cleared |
| `Fork.UnmarkedWritable` | kernel/mm/vmm.c:106-106 | a page without the mark is writable exactly if it was with it |
| `Fork.CopyArea` | kernel/mm/vmm.c:95-109 | exactly the present pages of the area are copied |
| `Fork.Clone` | kernel/mm/vmm.c:73-124 | a child has copies of exactly the parent's pages in areas and shares no frame with the parent; it has the parent's map if and only if every area that is not empty starts after all before it, and otherwise the map without the areas that do not; no frame is lost if and only if every page to be copied gets a table; it fails only for want of memory |
| `Fork.JoinsUnblocked` | kernel/mm/vmm.c:81-92 | inserting an area into the child's list fails exactly when it is not empty and some area before it does not start before it |
| `Fork.ClonedMeans` | kernel/mm/vmm.c:73-124 | the areas that could be inserted give the parent's map if and only if all could |
| `Fork.EmptyAreaDropsNext` | kernel/mm/vmm.c:73-242 | with an area at the heap base, a mapping whose length wraps to zero is accepted in front of it, and a fork then loses the area |
| `Protection.UnmapGuarded` | kernel/mm/vmm.c:393-455 | unmapping keeps every page in an area and writable exactly if the area is, also when an area cannot be split |
| `Protection.MmapGuarded` | kernel/mm/vmm.c:280-390 | so does every mapping request, successful or not, whose length does not wrap to zero |
| `Protection.FailedGuarded` | kernel/mm/vmm.c:324-387 | a failed request takes away all pages where it takes away the map |
| `Protection.FaultGuarded` | kernel/mm/vmm.c:534-589 | a page that has come in is writable exactly if its area is |
| `Protection.CloneGuarded` | kernel/mm/vmm.c:93-109 | a child agrees with the areas as its parent did |
| `Ownership.ExchangeKeeps` | kernel/mm/vmm.c:280-455 | when one page table exchanges frames with the free ones, every frame keeps one owner and what all other tables show stays the same |
| `Ownership.JoinKeeps` | kernel/mm/vmm.c:73-124 | a page table made of free frames joins the others without sharing a frame with any |
| `Ownership.StoreKeeps` | kernel/mm/vmm.c:93-109 | new contents of a frame show in one page of its one owner and nowhere else |
| `Ownership.ForkedImage` | kernel/mm/vmm.c:95-109 | the child sees exactly its parent's pages that lie in areas and could be mapped, with the same bytes, and can write an address of them exactly if its parent can |
| `Ownership.ImageGuarded` | kernel/mm/vmm.c:267-277 | the agreement of page table and areas is what a process sees: every page can be written exactly if it lies in an area that allows it |
| `Ownership.MmapIsMapping` | kernel/mm/vmm.c:280-390 | what a mapping promises about its address space determines the step of the whole machine |
| `Ownership.MappingGuarded` | kernel/mm/vmm.c:280-390 | a mapping step whose length does not wrap keeps pages and areas in agreement |
| `Ownership.ChildJoins` | kernel/mm/vmm.c:73-124 | a child made of free frames joins without sharing a frame, sees what it should and agrees with its areas if its parent did |
| `Ownership.Machine.Create` | kernel/mm/vmm.c:30-52 | a new address space joins the others and nobody notices |
| `Ownership.Machine.Munmap` | kernel/mm/vmm.c:393-455 | unmapping in one of many address spaces does there exactly what it should, keeps all of them in order, conserves frames and changes nothing that another process sees |
| `Ownership.Machine.Mmap` | kernel/mm/vmm.c:280-390 | mapping in one of many address spaces does there exactly what it should, keeps all of them in order, conserves frames and changes nothing that another process sees |
| `Ownership.Machine.Fault` | kernel/mm/vmm.c:534-589 | a page fault in one of many address spaces brings the page in exactly when it should, keeps all of them in order and changes nothing that another process sees |
| `Ownership.Machine.Store` | kernel/arch/x86_64/include/arch/mmu.h:11-13 | a process can store a byte exactly where its page is present and writable; it alone sees the change, in that byte alone |
| `Ownership.Machine.Clone` | kernel/mm/vmm.c:73-124 | a fork keeps all address spaces in order, nobody else notices, the child sees the parent's pages and can write where the parent can, and no frame is lost if and only if every page to be copied gets a table; without a child memory was missing |
| `Ownership.Machine.Run` | kernel/mm/vmm.c:30-589 | every sequence of these operations by any processes is a sequence of steps, each of which does what its operation says; no frame has two owners or appears from nowhere, every mapped page has contents, a process that does nothing itself sees the same areas and bytes, and without wrapped lengths every page can be written exactly if it lies in an area that allows it |
| `Slab.SlabFits` | kernel/mm/kmalloc.c:74-78 | header, objects and freelist fit into the slab with no room for one more object, and the indices stay below the end marker |
| `Slab.SlabSizeMeans` | kernel/mm/kmalloc.c:258-268 | small objects get one page, middle ones two, and large ones the fewest pages that hold header and object |
| `Slab.AlignUpDivides` | kernel/mm/kmalloc.c:251-252 | the aligned size is a multiple of the alignment |
| `Slab.CreationFails` | kernel/mm/kmalloc.c:258-274 | creation fails exactly when the slab has no room left beside one object |
| `Slab.AddressesDiffer` | kernel/mm/kmalloc.c:251-252 | indices have different addresses if and only if the aligned size is not zero |
| `Slab.NoOverlap` | kernel/mm/kmalloc.c:97-105 | two objects never overlap each other, a header or a freelist |
| `Slab.ChainedRange` | kernel/mm/kmalloc.c:107-110 | the initial freelist visits every index in order and ends at the marker |
| `Slab.Slab.Take` | kernel/mm/kmalloc.c:150-162 | an unused index is taken and the chain visits exactly the others; null exactly when the slab is full |
| `Slab.Slab.Put` | kernel/mm/kmalloc.c:165-172 | the index is unused again and the chain visits exactly the unused ones, if and only if the object was in use; otherwise the freelist no longer ends |
| `Slab.PutEnds` | kernel/mm/kmalloc.c:165-172 | the freelist still ends after a free if and only if the index was not on it already |
| `Slab.ContainsObj` | kernel/mm/kmalloc.c:174-185 | an address that the slab contains is the address of the index computed from it |
| `Slab.FindInList` | kernel/mm/kmalloc.c:187-197 | finds a slab that contains the address if and only if the list has one |
| `Slab.Cache.Find` | kernel/mm/kmalloc.c:199-205 | finds a slab of the cache that contains the address if and only if there is one |
| `Slab.Cache.Pick` | kernel/mm/kmalloc.c:329-338 | a slab with room, moved to the partial list, unless partial and free list are empty |
| `Slab.Cache.TakeFrom` | kernel/mm/kmalloc.c:349-358 | one new address is in use and a slab is on the full list exactly when it is full |
| `Slab.Cache.Return` | kernel/mm/kmalloc.c:390-408 | one address is no longer in use and the slab is on the right list, also when it holds one object; the cache stays valid if and only if the object was in use |
| `Kmem.Heap.NewSlab` | kernel/mm/kmalloc.c:81-124 | the pages of a new slab were free, so it overlaps no other slab |
| `Kmem.Heap.Alloc` | kernel/mm/kmalloc.c:324-361 | returns an address not in use before and adds exactly it; fails only when no slab has room and no zone has a long enough run of free pages |
| `Kmem.Heap.FindOwner` | kernel/mm/kmalloc.c:207-220 | finds the owning cache and slab if and only if some slab contains the address |
| `Kmem.Heap.OneContains` | kernel/mm/kmalloc.c:174-220 | an address lies in at most one slab |
| `Kmem.Heap.Free` | kernel/mm/kmalloc.c:373-409 | whichever cache is named, exactly the given address is no longer in use; the heap stays valid if and only if this was no second free in a slab with objects in use |
| `Kmem.Heap.Shrink` | kernel/mm/kmalloc.c:412-424 | exactly the empty slabs of the free list go and no object in use is touched |
| `Kmem.Heap.DestroyFirst` | kernel/mm/kmalloc.c:127-147 | the pages of the slab become free and belong to no other slab |
| `Kmem.Heap.CreateCache` | kernel/mm/kmalloc.c:227-292 | a cache is added, or none exactly when there is no memory for it or not one object fits at the alignment that is used; the heap stays valid unless the objects have no size |
| `Tcp.Connection.SendTracked` | kernel/net/core.c:500-529 | the segment goes out and is remembered for retransmission, or nothing happens |
| `Tcp.Connection.Read` | kernel/net/core.c:698-721 | the oldest bytes are handed out and the rest moves to the front |
| `Tcp.Connection.AcceptPayload` | kernel/net/core.c:1224-1237 | in-order bytes are taken as far as they fit and every data segment is answered; `TcpRuns.AnswerIsExact` says with which number |
| `TcpRuns.ArrivesKeeps` | kernel/net/core.c:1192-1246 | a segment of a conforming peer, old or new, keeps the protocol invariant |
| `TcpRuns.WriteKeeps` | kernel/net/core.c:676-696 | sending keeps the invariant: what is unacknowledged lies inside one remembered segment |
| `TcpRuns.ReadKeeps` | kernel/net/core.c:698-721 | reading keeps what was delivered and what is buffered a prefix of the peer's stream |
| `TcpRuns.ResendsAreHonest` | kernel/net/core.c:1285-1290 | a retransmission carries the bytes that belong to its sequence numbers |
| `TcpRuns.TakesKeeps` | kernel/net/core.c:500-529 | what a conforming peer takes from any transmission is a prefix of what was written |
| `TcpRuns.NextAcked` | kernel/net/core.c:625-1291 | whatever happens, nothing that was sent or may be sent again acknowledges a byte that was not taken, or the end before it was counted |
| `TcpRuns.AnswerIsExact` | kernel/net/core.c:1224-1245 | the answer to data or a FIN acknowledges exactly the bytes delivered and buffered, and one more when the end is counted |
| `TcpRuns.ArrivalMeans` | kernel/net/core.c:1216-1245 | bytes in order are taken as far as they fit and no others, an acknowledgement moves the number up and clears the remembered segment when it covers it, and a FIN closes the peer's side |
| `TcpRuns.SendMeans` | kernel/net/core.c:676-696 | exactly when the bytes are taken, and the segment that then carries them |
| `TcpRuns.TickMeans` | kernel/net/core.c:1272-1291 | a due tick on a working link transmits the remembered segment or the SYN again; after eight retries the connection is closed, and before the time nothing happens |
| `TcpRuns.OpeningMeans` | kernel/net/core.c:1192-1215 | a connection is established exactly by a SYN with an acknowledgement of its own, which is answered; a reset closes it |
| `TcpRuns.RunKeeps` | kernel/net/core.c:625-1291 | over every run with loss, repetition and reordering both directions deliver prefixes, of the length the receive number says, and no segment acknowledges a byte that was not taken |
| `TcpRuns.Session.constructor` | kernel/net/core.c:625-660 | a connection just opened satisfies the protocol invariant towards any peer, and its SYN is on its way if the link works |
| `TcpRuns.Session.Write` | kernel/net/core.c:676-696 | the bytes join what was written, in order, and go out in one segment at their place, exactly when the connection is open, nothing is unacknowledged and the link works; otherwise nothing changes |
| `TcpRuns.Session.Read` | kernel/net/core.c:698-721 | as many bytes as wanted and there are handed out exactly when there are some, the end is reported exactly when there are none after a FIN, and all bytes read so far are a prefix of the peer's stream |
| `TcpRuns.Session.Receive` | kernel/net/core.c:1192-1246 | any segment that the peer ever sent, in any order and number, keeps the object within the invariant; bytes in order are taken as far as they fit, the answer carries exactly the number of bytes taken, the connection opens exactly if the SYN is answered, and a reset closes it |
| `TcpRuns.Session.Tick` | kernel/net/core.c:1272-1291 | retransmission and aging keep the object within the invariant, and a due retransmission happens |
| `TcpRuns.Session.Run` | kernel/net/core.c:625-1291 | over every run the connection object is in the state of the protocol run, and both directions deliver prefixes |
| `TcpRuns.FinIsWhole` | kernel/net/core.c:1224-1245 | after a FIN the connection holds all of the peer's stream if and only if the end was taken before, or the FIN is in order and its payload fits the buffer |
| `TcpRuns.EndsEarly` | kernel/net/core.c:698-721 | a run from the opening of the connection in which the end of the stream is reported although a lost byte is missing |
| `TcpRuns.SameBytes` | kernel/net/core.c:500-529 | any two transmissions agree on every sequence number they share |
| `TcpRuns.FullAckIsSeen` | kernel/net/core.c:1216-1222 | a full acknowledgement clears the remembered segment if and only if the segment does not wrap |
| `Dhcp.Client.OnPacket` | kernel/net/core.c:901-944 | the client becomes bound exactly by an acknowledgement of its transaction after a request, with that address; a finished client ignores everything |
| `Dhcp.Client.Tick` | kernel/net/core.c:946-967 | what is sent or given up at which time; a finished client stays as it is |
| `Dhcp.Client.Valid` | kernel/net/core.c:796-967 | kept by every operation: at most 6 messages are sent and 1200 ticks after the first one the client is bound or failed |
| `Checksum.CarryKeeps` | kernel/net/core.c:266-268 | an end-around carry keeps the residue |
| `Checksum.IpChecksum` | kernel/net/core.c:255-270 | the complement of the ones' complement sum, without 32-bit overflow below 65536 bytes |
| `Checksum.Example` | kernel/net/core.c:255-270 | the example of section 3 of RFC 1071 has the checksum given there |
| `Checksum.TcpChecksum` | kernel/net/core.c:272-294 | the checksum of pseudo-header followed by segment |
| `Checksum.PseudoParts` | kernel/net/core.c:272-286 | the pseudo-header holds both addresses, a zero, the protocol number and the length |
| `Checksum.ChecksumVerifies` | kernel/net/core.c:255-270 | a buffer with its own checksum stored at an even position sums to zero |
| `Virtq.WrapAgrees` | kernel/net/virtio_net.c:247-247 | a 16-bit index reaches the right slot for all counts if and only if the ring size divides 2^16 |
| `Virtq.IndexedPush` | kernel/net/virtio_net.c:246-251 | writing at the 16-bit index appends to the ring and overwrites no unread entry |
| `Virtq.Queue.PushAvail` | kernel/net/virtio_net.c:246-251 | the available ring holds the unread entries in order, followed by the new one |
| `Virtq.Queue.Submit` | kernel/net/virtio_net.c:281-312 | refused exactly for empty or long frames or when all descriptors are busy; otherwise an idle descriptor is posted and no busy buffer changes |
| `Virtq.Queue.DeviceTakes` | kernel/net/virtio_net.c:281-312 | the device reads the oldest posted descriptor and finds exactly the submitted frame behind a zero header |
| `Virtq.Queue.DeviceReturns` | kernel/net/virtio_net.c:60-70 | the device returns a descriptor it holds through the used ring |
| `Virtq.Queue.HandleTxUsed` | kernel/net/virtio_net.c:354-371 | exactly the returned descriptors become free, in finitely many rounds |
| `Virtq.Queue.RxPrime` | kernel/net/virtio_net.c:253-265 | every receive buffer is posted once |
| `Virtq.Queue.Recycle` | kernel/net/virtio_net.c:318-326 | the buffer is posted again behind the waiting ones |
| `Virtq.Queue.HandleRxUsed` | kernel/net/virtio_net.c:328-352 | each page the device returned is delivered once, in order, as the bytes behind its header up to the length the device wrote, and posted again |
| `Virtq.PacketIsFrame` | kernel/net/virtio_net.c:328-352 | a page that holds a header, a frame and anything behind it is delivered as the frame |
| `Sched.TimeSlice` | kernel/proc/scheduler.c:147-161 | the slice stays between the minimum and the maximum for every nice value |
| `Sched.SliceFalls` | kernel/proc/scheduler.c:147-161 | a nicer task never gets a longer slice; it is 10 at nice 0 |
| `Sched.Scheduler.constructor` | kernel/proc/scheduler.c:536-561 | an empty scheduler is valid |
| `Sched.Scheduler.Enqueue` | kernel/proc/scheduler.c:71-81 | the task is at the end of the queue of its priority, once; bitmap and count stay exact |
| `Sched.Scheduler.Dequeue` | kernel/proc/scheduler.c:83-97 | the task leaves its queue; bitmap and count stay exact |
| `Sched.Scheduler.PickNext` | kernel/proc/scheduler.c:99-119 | the first task of the best non-empty queue, idle only when every queue is empty |
| `Sched.Scheduler.MakeReady` | kernel/proc/scheduler.c:192-207 | a schedulable task is ready and queued and no longer asleep; any other is left alone |
| `Sched.Scheduler.Park` | kernel/proc/scheduler.c:229-234 | the running task is put back at the end of its queue and no task is running any more |
| `Sched.Scheduler.Schedule` | kernel/proc/scheduler.c:219-263 | the front of the best queue, with the running task put back, runs next; the others keep their places |
| `Sched.Scheduler.Block` | kernel/proc/scheduler.c:362-379 | the task is blocked and on no list |
| `Sched.Scheduler.SleepFor` | kernel/proc/scheduler.c:403-418 | the task is asleep until its deadline and on no run queue |
| `Sched.Scheduler.Wake` | kernel/proc/scheduler.c:385-401 | a waiting task is ready and queued, and a switch is asked for exactly when its priority number is below that of the running one or the idle task runs; any other is left alone |
| `Sched.Scheduler.SetPriority` | kernel/proc/scheduler.c:163-174 | the task moves to the end of the new queue; the state stays valid if and only if the task was not running |
| `Sched.Scheduler.Exit` | kernel/proc/scheduler.c:339-356 | the exiting task is a zombie and another task runs |
| `Sched.Scheduler.Charge` | kernel/proc/scheduler.c:130-145 | what is left of the running task's slice, and that a switch is asked for exactly when it is used up while another task waits |
| `Sched.Scheduler.WakeDue` | kernel/proc/scheduler.c:326-336 | exactly the sleepers whose time has come are ready; the others sleep on |
| `Sched.Scheduler.Tick` | kernel/proc/scheduler.c:309-337 | the clock moves on, due sleepers are ready and no due sleeper is left, the queues grow by due sleepers only, and a switch is asked for exactly when the slice is used up |
| `Sched.Scheduler.Round` | kernel/proc/scheduler.c:219-263 | one call serves the front of the best queue or moves the waiting task one place forward |
| `Sched.FrontWithout` | kernel/proc/scheduler.c:83-97 | a task keeps its place or moves forward when another one leaves a queue |
| `Sched.Scheduler.Happens` | kernel/proc/scheduler.c:192-418 | every wake-up, block, sleep, exit and tick does what it should, and none moves a waiting task back while no better task becomes ready |
| `Sched.Scheduler.WaitsAtMost` | kernel/proc/scheduler.c:219-263 | position k runs within k + 1 calls, whoever becomes ready, wakes, blocks, sleeps, exits or is woken by the clock in between; if not, it has come that much nearer when an act is due that makes a better task ready |
| `MsgQueue.Queue.Send` | kernel/ipc/msgqueue.c:118-167 | appended unless too big, full or out of memory; counters stay exact |
| `MsgQueue.Queue.Recv` | kernel/ipc/msgqueue.c:169-230 | the oldest message of the wanted kind is taken and the others keep their order; one that does not fit stays |
| `PolicyCache.Cache.Lookup` | kernel/fs/axiomfs/policy_ipc.c:68-109 | a hit is a decision for exactly this request that has not expired, moved to the front; a miss changes nothing, and a decision whose hash is its own is found exactly until it expires |
| `PolicyCache.HashIsSum` | kernel/fs/axiomfs/policy_ipc.c:29-35 | the hash is the 64-bit polynomial of the four fields in base 31 |
| `PolicyCache.Cache.Insert` | kernel/fs/axiomfs/policy_ipc.c:111-159 | the decision is in front with its expiry and exactly the least recently used ones beyond the limit go |
| `PolicyCache.Cache.Invalidate` | kernel/fs/axiomfs/policy_ipc.c:161-176 | exactly the decisions about the inode go and the others keep their order |
| `PolicyCache.Cache.Flush` | kernel/fs/axiomfs/policy_ipc.c:178-192 | nothing is left and the tree is valid |
| `Policy.Kernel.SendQuery` | kernel/ipc/axiomd_channel.c:88-95 | a query is sent exactly when the daemon is connected and there is room and memory, and identifiers stay unique |
| `Policy.Kernel.Await` | kernel/ipc/axiomd_channel.c:97-121 | any response taken is one the daemon gave; a waiting one is taken first, a prompt one is taken when none waits and the queue has room, and a full queue without a response lets none through |
| `Policy.Kernel.AskDaemon` | kernel/fs/axiomfs/policy_ipc.c:221-247 | a result is the daemon's answer to this very query; a prompt answer gets through if and only if the daemon is connected, no response is left over, both queues have room and there is memory |
| `Policy.FallbackDegrades` | kernel/fs/axiomfs/policy_ipc.c:202-214 | reading and executing fall back to "default", everything else to "deny" |
| `Policy.Kernel.Consult` | kernel/fs/axiomfs/policy_ipc.c:253-257 | a cached result is an answer to exactly this request, younger than the lifetime; a decision whose hash is its own is returned exactly until it expires |
| `Policy.Kernel.CheckAccess` | kernel/fs/axiomfs/policy_ipc.c:249-289 | the result is the daemon's answer to exactly this request that was taken now or remembered and not expired, or else "default" for reading and executing and "deny" for the rest; reading and executing are refused, and anything else is not, only by such an answer; a remembered answer is returned without asking; for an unknown request a prompt answer is returned exactly when it can get through |
| `Policy.Kernel.Decide` | kernel/fs/axiomfs/file.c:63-75 | a decision is made exactly when a daemon is connected; for an unknown request it is the prompt answer exactly when that can get through, and otherwise "default" for reading and executing and "deny" for the rest; reading and executing are refused only by the daemon |
| `Policy.Kernel.Invalidate` | kernel/fs/axiomfs/policy_ipc.c:161-176 | exactly the decisions about the inode are forgotten, and the others are still answers of the daemon |
| `Policy.Kernel.Flush` | kernel/fs/axiomfs/policy_ipc.c:178-192 | no decision is remembered any more and the state stays valid |
| `UserMemory.Memory.Write` | kernel/proc/exec.c:414-436 | page by page writing is one write to the byte map, and succeeds exactly when every byte is mapped |
| `UserMemory.Memory.Read` | kernel/proc/exec.c:186-208 | page by page reading is one read of the byte map, and succeeds exactly when every byte is mapped |
| `UserMemory.WordPut` | kernel/proc/exec.c:438-440 | a stored 64-bit word reads back |
| `UserMemory.EncodeAt` | kernel/proc/exec.c:438-440 | the lowest byte of a word comes first |
| `Relr.Apply` | kernel/proc/exec.c:445-487 | a table that begins with a bitmap is refused unchanged, and no other; a table outside its places is applied as plain relocation of the places it names if and only if they are all mapped; success means that the whole table was mapped |
| `Relr.ApplyBits` | kernel/proc/exec.c:470-482 | a bitmap relocates exactly the words of its set bits |
| `Relr.RelocatedWord` | kernel/proc/exec.c:455-465 | each place gets the bias exactly once |
| `Relr.RelocatedElsewhere` | kernel/proc/exec.c:445-487 | bytes outside the places do not change |
| `Relr.PlacesPack` | kernel/proc/exec.c:445-487 | unpacking the packed form of even, non-overlapping addresses gives the addresses back |
| `Relr.PackedIsPlain` | kernel/proc/exec.c:445-487 | applying the packed form equals relocating the plain list |
| `StackInit.PushStrings` | kernel/proc/exec.c:1165-1193 | every pointer leads to its string, and the copy is refused exactly for long strings or a full stack |
| `StackInit.PushWords` | kernel/proc/exec.c:1255-1280 | words pushed from the last to the first lie in order |
| `StackInit.CopyAll` | kernel/proc/exec.c:1162-1210 | strings, file name, seed and platform name lie where the pointers say |
| `StackInit.PushFrame` | kernel/proc/exec.c:1255-1280 | from the stack pointer up lie the count, the argument pointers, a zero, the environment pointers, a zero and the auxiliary vector |
| `StackInit.FrameReadable` | kernel/proc/exec.c:1215-1280 | the words from the stack pointer on lead to every argument and every environment string in order, and to every entry of the auxiliary vector |
| `StackInit.AuxvPairs` | kernel/proc/exec.c:1215-1234 | searching the vector for a type finds its value: program headers, entry point, user and group numbers, and the pointers to platform name, seed and file name |
| `StackInit.Setup` | kernel/proc/exec.c:1104-1291 | a program that starts at the 16-byte aligned stack pointer finds the count, each argument, each environment string and each entry of the auxiliary vector at its place; strings and pointers are disjoint, nothing outside the stack changes, and both refusals have their exact conditions |
| `Passwd.DigitsValue` | userland/lib/passwd_db.c:287-311 | printed digits denote the number |
| `Passwd.ScanExact` | userland/lib/passwd_db.c:241-265 | an accepted number is the written one if and only if that one is within the limit |
| `Passwd.ScanWraps` | userland/lib/passwd_db.c:241-265 | 2^32 + 1 is accepted as 1 |
| `Passwd.FormatDec` | userland/lib/passwd_db.c:287-311 | prints the decimal digits |
| `Passwd.ParseDec` | userland/lib/passwd_db.c:241-265 | reads back every number within the limit |
| `Passwd.ColumnsJoin` | userland/lib/passwd_db.c:178-192 | splitting joined fields gives the fields back |
| `Passwd.ParseLine` | userland/lib/passwd_db.c:203-285 | the line of a well-formed entry gives the entry back |
| `Passwd.FormatLine` | userland/lib/passwd_db.c:313-357 | prints the line of the entry, and everything written stays inside the buffer, if and only if the line fits; otherwise a buffer that is not empty is overrun by at most seven bytes, the zero byte included |
| `Passwd.Build` | userland/lib/passwd_db.c:490-502 | the text of the database if it fits, and failure if it does not |
| `Passwd.ParseBuffer` | userland/lib/passwd_db.c:438-466 | the text of a database of well-formed entries gives the same entries in order |
| `Passwd.VerifyPassword` | userland/lib/passwd_db.c:72-93 | a text printed as plain accepts exactly its password, one printed as a hash exactly the inputs with that hash, and whatever accepts an input is empty or stores it in one of the three forms |
| `Passwd.OwnHash` | userland/lib/passwd_db.c:18-93 | a printed hash accepts its own password, and another exactly when it has the same hash |
| `Passwd.TokensList` | userland/lib/passwd_db.c:690-705 | walking a comma list of non-empty names gives the names back |
| `Passwd.HasToken` | userland/lib/passwd_db.c:690-705 | finds a name if and only if it is one of the pieces of the list |
| `Passwd.HashPassword` | userland/lib/passwd_db.c:37-45 | the tag followed by the sixteen hexadecimal digits of the hash |
| `Passwd.HashValues` | userland/lib/passwd_db.c:28-35 | the hash of the empty text is the FNV-1a offset basis, and that of "a" its published value |
| `Passwd.FnvSnoc` | userland/lib/passwd_db.c:28-35 | a character more is mixed into the hash of the text before it |
| `Passwd.HexLetters` | userland/lib/passwd_db.c:18-45 | hexadecimal letters are small and the high digit comes first |
| `Passwd.UnhexHex` | userland/lib/passwd_db.c:18-69 | printed hexadecimal digits denote the number |
| `Passwd.AddMember` | userland/lib/passwd_db.c:707-727 | the error case, and set insertion on comma lists of names if and only if the user is present or the longer list fits |
| `Passwd.RemoveMember` | userland/lib/passwd_db.c:729-765 | set deletion on comma lists |

## Left out

- Hardware access, interrupt handlers, register layouts and the drivers other than the virtqueue: no protocol beyond it.
- `vmm_brk`, shared-memory attachment, `mprotect` and `as->total_vm`: attachment maps one frame into several address spaces on purpose; the others only add easy members.
- `vmm_destroy_address_space`: it gives no page frames back, so ending a process only takes frames out of the account.
- Page-table pages: a page table is a map, so the frames of the tables themselves and their loss on destruction are not modelled.
- `krealloc`, `kmalloc_usable_size`, the size-class front end and large allocations of `kmalloc.c`; constructors, destructors, `total_slabs`, `total_objects` and the byte statistics of a cache.
- `net_tcp_close`, ARP, UDP and ICMP events, connection lookup by address, and liveness of TCP.
- The DHCP option parser, the fallback address and the ARP request after binding.
- `scheduler_set_nice`, policy registration, the switch of stacks and address spaces, and time accounting.
- `MSG_EXCEPT`, queue creation and destruction, `axiomd_ping`, and the contents of the path in a query.
- The ELF loader, shebang detection and the mapping of the stack pages before the strings are copied.
- The group file format, file access and `ob_name_valid`.
- BlockCache.Cache.Put: needs room for at least one entry, because the eviction loop of an empty cache of size zero reads a missing entry.
- PolicyCache.Cache.Insert: needs room for at least one entry, for the same reason.
- PolicyCache.Cache.Lookup: promises to find a decision only when no other cached one has its hash, because an expired entry stops the search and a colliding one turns it to the right.
- Pmm.PhysMem.AllocPage: a free page 0 would be taken and reported as a failure, which the contract says; the memory-management models assume it is never free.
- TcpRuns.RunKeeps: sequence numbers do not wrap in either direction; `TcpRuns.FullAckIsSeen` says what happens when they do.
- Virtq.Queue.constructor: the ring size divides 2^16, as the device promises; `Virtq.WrapAgrees` shows that it must.
- Policy.Kernel.CheckAccess: fewer than 2^32 queries, so that identifiers are unique.
- Relr.PlacesPack: addresses stay 1008 bytes below 2^64, so that the running address does not wrap.
- StackInit.Setup: the file name has at most 4096 bytes; a longer one could leave no room for the pointers, which the code does not look for.
- Sched.Scheduler.SetPriority: not for the idle task, which is never queued.
- Sched.Scheduler.Block: not for the idle task, which would be chosen again while it waits.
- Sched.Scheduler.SleepFor: not for the idle task, which would be chosen again while it sleeps.
- Sched.Scheduler.Exit: the exiting process is the running one and not idle, as its callers guarantee.
- Ownership.Machine.Run: that pages and areas agree on writing is promised for runs in which no mapping length wraps to zero; after such a length an empty area may keep a child from getting the area of a page it has a copy of.
- Fork.Clone: frames given to a child that is abandoned halfway are lost, so a failed fork only promises that the free set shrinks.
- Relr.Apply: of a table that relocates itself it says only when it is refused as beginning with a bitmap, and that success needs a mapped table.
- Passwd.FormatLine: of a line that does not fit it says only that the buffer is overrun and by how much at most; the contents are not stated.
- Dhcp.Client.OnPacket: for replies that passed the length, operation and magic checks.
