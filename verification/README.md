# Verified models of the Phoenix-RTOS kernel core

This project models the machine-independent core of the Phoenix-RTOS kernel in Dafny and proves what
its data structures, allocators and protocols promise. The models are imperative where the kernel is:
the red-black tree is rewired through parent, left and right pointers, the page allocator splits and
joins blocks in arrays, the scheduler moves threads between lists.

* **Gap-augmented red-black tree** (`GapTree`, `RbAugment`, `RbRotate`, `RbGrow`, `RbInsert`,
  `RbPivot`, `RbShrink`, `RbTransplant`, `RbDetach`, `RbSwap`, `RbColors`, `RbFixup`, `RbRemove`, `RbWalk`,
  `RbHeight`). Each node carries, as ghost state, the slice of the in-order sequence below it; gap
  summaries are exact when they equal the largest gap of their half of the slice. `Shape` is search
  order and mutual links, `Blacks`/`Reds` the colour rules, `RedBlack` all of that with a black root
  and exact summaries, `Keyed` increasing keys with a gap list that matches them. While a structure is being
  rewired, `ExactOffGaps(a, b)` says which summaries may be stale. Gap sizes are taken modulo 2^32, as
  in the kernel, so a gap that underflows for a moment is a huge number here too.
* **Address-space map** (`MapFind`, `MapTouch`, `MapEdit`, `MapView`, `MapSlots`, `MapSpace`, `MapUnmap`). `At(t, a)`
  is what the map shows at address `a`: nothing, or an (object, protection, flags) cell; `Painted` says
  that exactly one range of it changed. `Sound` is a red-black tree of disjoint entries inside the map.
  `Slotted` says that the slots of every entry lie inside its amap and that entries which share an amap share its
  base, so that two addresses have one slot exactly if they are on one page; `Seated` says that every address
  outside a range has kept its slot, and `AnonAt(t, a)` is the anonymous page behind address `a`.
* **Ids and ports** (`IdSearch`, `IdAlloc`, `PortAlloc`, `PortTable`), on the same tree.
* **Physical pages** (`Powers`, `Buddy`, `BuddyLists`, `BuddyChain`, `PageAlloc`), the **kernel heap** (`Zones`,
  `Kmalloc`) and **copy-on-write** (`Cow`).
* **Lists, scheduler, locks** (`Lists`, `Scan`, `Ring`, `Threads`, `Locks`). A `Sight` is the state of the scheduler's
  lists as a value, so that a search or a timer interrupt is stated against what there was before it. The locks are a state machine of
  spinlock-protected steps; the theorems are about every run.
* **Message passing** (`MsgPages` for the shadow pages, `Messages` for the protocol).
* **Address-space identifiers** (`Asids`), **ring buffer and datagrams** (`Cbuffer`, `Datagrams`),
  **open files** (`Files`).

`Kernel` holds the page size and the error codes. Pages, clocks and the results of allocations come in as
parameters. A spinlock-protected region is one atomic step.

## Where the code does not do what one would expect

Each of these is stated with the exact condition under which the code is right.

* `_map_find` compares `stop - size` with the hint before raising the hint to `start`, and trusts an
  empty tree: with an empty map, a size larger than the map and a hint small enough, it answers with
  an address that has no room (`MapFind.Find`, `MapFind.TooLarge`; `MapSpace.Map` carries it on).
* `_vm_munmap` is right exactly for ranges inside one entry (`MapUnmap.Narrow`, `MapUnmap.ClearedIffInside`,
  `MapUnmap.Overshoot`).
* `_map_map` looks at the slots a merge needs for anonymous memory only. Over an object, addresses keep their slots
  and their pages exactly if the amap of the neighbour that grows has slots on that side, or the two that are joined
  are over one amap (`MapSpace.Install`, `MapSpace.Map`, `MapSpace.Misplaced`).
* When the front of an entry is unmapped, its offset into the object is not moved: what is left shows the pages
  it did exactly if none of them comes from the object (`Cow.Vm.FrontRight`, `Cow.FrontShifts`).
* When `msg_map` fails after it has taken a window, `msg_release` works from a null address and unmaps one page
  less than was mapped, unless the data would touch no more pages from a page boundary on
  (`MsgPages.ReleasedAfterFailure`, `MsgPages.PageLeftBehind`).
* `proc_respond` copies back the input of a message before its output: what the receiver wrote over a byte of the
  output is lost exactly if that byte is among those copied for the input and not among those copied for the
  output, so never if the two have no byte in common (`MsgPages.Memory.ExchangeBoth`, `MsgPages.ApartNotStale`,
  `MsgPages.AnswerLost`).
* `_page_free` leaves two free buddies unjoined exactly if it has absorbed something and the block it
  ends with is a right half with a free left half, which is told from the blocks before the call
  (`PageAlloc.Pages.Free`, `BuddyChain.LeftBehind`, `PageAlloc.TwoPairs`).
* The id search gives the id beyond the last one exactly if nothing in range is left, and gives none
  exactly if the last id is the only one left and the one before it is used (`IdSearch.Alloc`,
  `IdAlloc.BeyondTheLast`, `IdAlloc.LastNotFound`).
* The signed comparison of port ids is right exactly for ids less than 2^31 apart, so it orders all
  ports as long as there were never more than 2^31 at a time (`PortAlloc.CompareIsOrder`,
  `PortTable.Table.ComparesAll`).
* `_cbuffer_discard` is bounded by the free space instead of the bytes there are, so dropping the rest
  of a truncated datagram keeps message boundaries exactly if that many bytes are free
  (`Cbuffer.Ring.Discard`, `Cbuffer.DiscardOne`, `Datagrams.Socket.Recv`).
* `_posix_dup2` with equal descriptors closes the file it goes on to use, unless there is another
  reference (`Files.Posix.Dup2`, `Files.DupOntoItself`).
* A free lock with waiters has somebody about to try it, or to wake one of them, all through a run
  exactly if no kill takes the last such thread (`Locks.KillsHarmless`, `Locks.KillStrands`).

## Model

| member | source | states |
|---|---|---|
| `GapTree.Tree.constructor` | lib/rb.c:21-26 | an empty tree over the given range satisfies all invariants, its one gap being the whole range |
| `GapTree.MaxGapOf` | vm/map.c:66-109 | the summary function is the largest gap of a stretch: one of its gaps, and no other is larger |
| `GapTree.Tree.Inside` | lib/rb.c:39-84 | in a well-formed tree a node numbered inside another's slice lies wholly on one side of it |
| `GapTree.Tree.OnPath` | lib/rb.c:135-210 | the parent chain of a node holds exactly the nodes whose slice contains it |
| `RbAugment.Augment` | vm/map.c:66-109 | after the callback every rung of the path to the root reports its child's maximum, and the sides turned away from the path are untouched |
| `RbAugment.AugmentAll` | vm/map.c:66-109 | if only summaries that look towards the node are stale, the callback makes every summary in the tree exact |
| `RbAugment.AugmentOver` | vm/map.c:66-109 | the callback above a stretch of doubtful gaps disturbs no summary that does not range over them |
| `RbRotate.RotateLeft` | lib/rb.c:39-60 | the rotation keeps the in-order sequence and leaves every gap summary exact |
| `RbRotate.RotateRight` | lib/rb.c:63-84 | the mirror rotation keeps the in-order sequence and leaves every gap summary exact |
| `RbGrow.GrownColors` | lib/rb.c:249-261 | a new red leaf changes no black height and breaks no colour rule but possibly its own |
| `RbInsert.Recolor` | lib/rb.c:94-100 | with a red uncle the violation moves to the grandparent and black heights stay equal |
| `RbInsert.StepLeft` | lib/rb.c:92-110 | one turn of the fix-up on the left keeps the invariant with one possible red-red pair and gets nearer to the end |
| `RbInsert.StepRight` | lib/rb.c:111-128 | the mirror turn keeps the same invariant and gets nearer to the end |
| `RbInsert.InsertBalance` | lib/rb.c:87-132 | from a tree with one possible red-red pair the fix-up reaches a red-black tree with exact summaries, and terminates |
| `RbInsert.Descend` | lib/rb.c:235-247 | the descent finds a colliding entry or the one place between neighbours where the new entry fits |
| `RbInsert.Insert` | lib/rb.c:233-264 | refuses exactly the entries that overlap one in the tree, changing nothing; otherwise one node more, in its place in the order, red-black, disjoint, summaries exact |
| `RbTransplant.Transplant` | lib/rb.c:213-230 | one child takes another's place and the path above is up to date; summaries away from the gap stay exact |
| `RbDetach.Unlink` | lib/rb.c:213-230 | numbering a node out and putting its only child in its place keeps the order of the rest |
| `RbSwap.Promote` | lib/rb.c:288-300 | the successor, being the right child, takes the place and the left subtree of the node removed |
| `RbSwap.Inherit` | lib/rb.c:290-300 | the successor, taken out further down, takes place and both subtrees of the node removed |
| `RbSwap.Finish` | lib/rb.c:303-307 | the two extra augmentations after the swap make every summary exact again |
| `RbFixup.RedSiblingLeft` | lib/rb.c:152-157 | a red sibling is rotated above the parent: the shortage stays, the sibling is now black |
| `RbFixup.PushUp` | lib/rb.c:159-163 | a black sibling with black children turns red and the shortage moves to the parent |
| `RbFixup.NearNephewLeft` | lib/rb.c:164-169 | a red near nephew is turned into a red far nephew without changing the shortage |
| `RbFixup.FarNephewLeft` | lib/rb.c:170-176 | with a red far nephew one rotation ends the shortage for the whole tree |
| `RbFixup.FixLeft` | lib/rb.c:148-177 | one turn with the short side on the left keeps "one side short of one black" and makes progress |
| `RbFixup.FixRight` | lib/rb.c:178-206 | the mirror turn keeps it and makes progress |
| `RbFixup.ShortIsFixing` | lib/rb.c:137-142 | the nil node on the stack may stand for a missing child |
| `RbFixup.RemoveBalance` | lib/rb.c:135-210 | from any tree short of one black at one place the loop reaches a red-black tree with exact summaries, and terminates |
| `RbRemove.RemoveOuter` | lib/rb.c:275-282 | a node with at most one child is spliced out; the tree is short of at most its blackness |
| `RbRemove.RemoveInner` | lib/rb.c:283-308 | a node with two children is replaced by a successor from further down; order of the rest kept, shortage only where the successor was |
| `RbRemove.Remove` | lib/rb.c:267-312 | removing any node from any red-black tree leaves a red-black tree with exact summaries over exactly the other nodes in their order |
| `RbWalk.Minimum` | lib/rb.c:315-326 | the first node of a subtree in the order |
| `RbWalk.Maximum` | lib/rb.c:329-340 | the last node of a subtree in the order |
| `RbWalk.Prev` | lib/rb.c:343-354 | the predecessor in the order, NULL for the first |
| `RbWalk.Next` | lib/rb.c:357-368 | the successor in the order, NULL for the last |
| `RbWalk.Enumerate` | lib/rb.c:315-368 | minimum followed by next yields every node exactly once, in order |
| `RbWalk.Find` | lib/rb.c:371-391 | an overlapping entry if there is one, NULL exactly if there is none |
| `RbHeight.Bushy` | lib/rb.c:87-210 | a subtree of black height b has at least 2^b - 1 nodes |
| `RbHeight.HeightBound` | lib/rb.c:87-312 | no node of a red-black tree of n nodes is deeper than 2*log2(n+1) |
| `MapFind.RoomHasGap` | vm/map.c:161-219 | any free range lies inside a single gap between neighbours |
| `MapFind.Climb` | vm/map.c:196-211 | the up-walk stops at the first ancestor whose right side is large enough, or there is no room at all |
| `MapFind.Search` | vm/map.c:174-216 | on a non-empty tree the backtracking search returns the first fit with its true neighbours, NULL exactly if nothing fits, and terminates |
| `MapFind.Find` | vm/map.c:161-219 | the answer is the lowest free address at or above the hint, NULL exactly if there is none, if and only if the tree is not empty, or the size fits the map, or the first test rejects |
| `MapFind.TooLarge` | vm/map.c:163-218 | an empty map of one page asked for two pages answers with an address that has no room |
| `MapTouch.Touch` | vm/map.c:66-109 | augmenting beside the one gap in doubt settles the whole tree if the node sees the gap directly |
| `MapEdit.Held` | vm/map.c:66-109 | of the two entries beside a gap one sees it directly, so augmenting both always settles it |
| `MapEdit.MoveEnd` | vm/map.c:306-317 | after an entry's end moves and both neighbours are augmented, the map is sound |
| `MapEdit.MoveStart` | vm/map.c:289-305 | after an entry's start moves and both neighbours are augmented, the map is sound |
| `MapEdit.Swallow` | vm/map.c:281-287 | while an entry runs over its neighbour only summaries over the underflowed gap between them are in doubt |
| `MapView.AddedAt` | vm/map.c:119-132 | an added entry shows at its own addresses and nowhere else |
| `MapView.TakenAt` | vm/map.c:135-149 | a removed entry leaves its own addresses unmapped and no others |
| `MapSlots.SlotsApart` | vm/amap.c:219-271 | two addresses of entries over one amap have the same slot if and only if they are on the same page, and it is a slot the amap has |
| `MapSlots.SeatsKept` | vm/map.c:276-345 | when entries go, shrink or stay and one other fits in, slots stay inside the amaps, bases stay shared, and every address outside the range keeps its slot |
| `MapSlots.GrownRight` | vm/map.c:262-264 | growing an entry to the right keeps all that if and only if its amap has slots for what it grows over |
| `MapSlots.GrownLeft` | vm/map.c:266-297 | growing it to the left does if and only if it has slots before those it covers; with an offset of 0, or less than the size, it does not |
| `MapSlots.Joined` | vm/map.c:258-288 | joining two entries does if and only if they are over one amap |
| `MapSlots.Halved` | vm/map.c:424-430 | the second half of a split entry has the slots the entry had there |
| `MapSlots.Clear` | vm/amap.c:167-175 | exactly the slots of the range are emptied |
| `MapSlots.ClearRange` | vm/map.c:347-349 | on page boundaries, the addresses of the range are left without a page and all others keep theirs |
| `MapSlots.OwnSlots` | vm/amap.c:104-147 | an entry without an amap, or with a shared one, gets one of its own; every address shows the page it did |
| `MapSlots.PutPage` | vm/amap.c:271-275 | a page put into the slot of an address is behind its page of addresses and behind no other |
| `MapSpace.ChooseMerge` | vm/map.c:237-274 | a neighbour is grown only if it is adjacent with the same object, protection, flags and, where given, a continuing offset; where slots are in order, exactly if in addition it is over an object, has the slots, or both neighbours are over one amap |
| `MapSpace.MergeBoth` | vm/map.c:281-288 | joining two entries over the range, with the removal that follows, repairs the underflowed gap; only the range changes its contents, and slots are kept if and only if both are over one amap |
| `MapSpace.MergeLeft` | vm/map.c:306-317 | growing the entry before changes what the map shows in the range only, and keeps slots if and only if there are enough behind it |
| `MapSpace.MergeRight` | vm/map.c:289-305 | growing the entry behind changes what the map shows in the range only, and keeps slots if and only if there are enough before it |
| `MapSpace.Before` | vm/map.c:334-336 | where slots are in order, the size_t test passes if and only if the slots before those of the next entry reach down to the range, and the offset then has the same base |
| `MapSpace.Behind` | vm/map.c:338-340 | where slots are in order, the size_t test passes if and only if the slots behind those of the previous entry reach over the range, or the sum wraps and still does, and the offset then has the same base |
| `MapSpace.AddNew` | vm/map.c:318-345 | a new entry shows in its range only; its slots are those the neighbour that lends its amap has there, the next one if it can, so that no other address has them |
| `MapSpace.AddEntry` | vm/map.c:119-132 | an entry for a free range shows there and nowhere else; the map is sound exactly if the range is inside it |
| `MapSpace.Install` | vm/map.c:237-345 | whichever merge case applies, exactly the range shows the new cell; slots stay inside the amaps, distinct for distinct pages, and every other address keeps its slot if and only if the memory is anonymous or the amaps have room; without memory for an entry nothing changes |
| `MapSpace.Map` | vm/map.c:222-355 | the range chosen is the first fit and shows the new cell, all else is as before and the map is sound; the entry and offset that hold the range; every other address keeps its slot if and only if the memory is anonymous or the amaps have room, and then, on page boundaries, its page, the range being without pages; NULL changes nothing and says why |
| `MapSpace.Misplaced` | vm/map.c:289-305 | a page mapped before one of the same object that has an amap: slots are out of place |
| `MapUnmap.DropEntry` | vm/map.c:389-392 | unmapping a whole entry clears its addresses only; the others keep their slots |
| `MapUnmap.TrimFront` | vm/map.c:393-405 | trimming the front clears those addresses only; the others keep their slots |
| `MapUnmap.TrimTail` | vm/map.c:407-417 | trimming the tail clears those addresses only; the others keep their slots |
| `MapUnmap.SplitEntry` | vm/map.c:418-437 | cutting out the middle clears those addresses only; both halves show what they did and keep their slots |
| `MapUnmap.Narrow` | vm/map.c:389-433 | for any range that meets the entry, inside it or not, the branches leave the entry and the second half with exactly the spans of the size_t arithmetic |
| `MapUnmap.CutOut` | vm/map.c:389-437 | each branch leaves of the entry found exactly the spans the field arithmetic gives, and clears only the range |
| `MapUnmap.Unmap` | vm/map.c:368-440 | a range inside an entry is cleared and nothing else changes, the entry being left with the spans the field arithmetic gives; every other address keeps its slot and its page; -EINVAL exactly if it meets no entry; on an error the tree of entries is untouched |
| `MapUnmap.ClearedIffInside` | vm/map.c:389-436 | the spans that Narrow, and so CutOut, leaves clear exactly the range if and only if the range lies inside the entry |
| `MapUnmap.Overshoot` | vm/map.c:393-405 | unmapping two pages where one is mapped leaves an entry that wraps around the end of memory |
| `IdSearch.AllUsed` | proc/resource.c:36-73 | if no gap so far offers anything, every id from the one asked for is in use |
| `IdSearch.UsedBefore` | proc/resource.c:36-73 | every id between the one asked for and the start of the first gap with room is in use |
| `IdSearch.Alloc` | proc/process.c:140-177 | an unused id at or above the one asked for, the one asked for or else next to an id in use at the first gap with room; beyond the range exactly if nothing in range is left; 0 exactly if all that is left is the last id, behind a used one |
| `IdAlloc.Choose` | proc/process.c:180-190 | the search from the counter on and then from 1 gives an unused id, none exactly if only the last id is left, and one out of range exactly if everything from the counter on is used; the search began at the counter, or at 1 if only the last id is left from there |
| `IdAlloc.Allocate` | proc/process.c:180-198 | the id entered was unused and is now used, and no other id changed; 0 exactly if only the last id is left; beyond the range exactly if everything from the counter on is used; the counter is one past where the search began, 2 after the last id, and 1 if none was found |
| `IdAlloc.Admit` | proc/process.c:180-198 | an unused id goes into any tree of single ids, the tree stays in order and no other id changes |
| `IdAlloc.Enter` | proc/threads.c:687-705 | entering an unused id adds it and nothing else, and the tree stays in order exactly if the id is in range |
| `IdAlloc.LastNotFound` | proc/resource.c:36-73 | with only the last id but one in use, asking for that one gives none, though the last id is left |
| `IdAlloc.BeyondTheLast` | proc/resource.c:36-119 | with the last id in use, asking for it gives the one beyond |
| `PortAlloc.LowestRoom` | proc/ports.c:34-64 | the guided search reaches the lowest gap with room: everything below it is in use |
| `PortAlloc.PortId` | proc/ports.c:113-137 | the id at the near end of the lowest gap with room, everything below that gap being used; unused, and not above the number of ports unless it lies below a port; -ENOMEM only if every id is used |
| `PortAlloc.CompareIsOrder` | proc/ports.c:25-31 | comparing by signed subtraction is right if and only if the ids are less than 2^31 apart |
| `PortTable.Table.Create` | proc/ports.c:196-239 | a new port gets an unused id, and in every run of creations and removals every port id stays below the largest number of ports there has been; refused exactly if every id is used |
| `PortTable.Table.EnrolAgain` | proc/ports.c:234-236 | the second insertion of a port already in the tree is refused |
| `PortTable.Table.Destroy` | proc/ports.c:161-193 | with its last reference a port and its id are gone, nothing else changes, and the bound on the ids still holds |
| `PortTable.Table.ComparesAll` | proc/ports.c:25-31 | if there were never more than 2^31 ports at a time, the signed comparison of any two ports agrees with their order in the tree |
| `PortTable.Table.ComparesProbe` | proc/ports.c:25-31 | and it sends every descent towards an id below 2^31 the way the order does |
| `Buddy.BlocksApart` | vm/page.c:40-150 | blocks of a tiling are disjoint |
| `Buddy.SplitTiled` | vm/page.c:62-73 | splitting an aligned block leaves a tiling by aligned powers of two |
| `Buddy.MergeTiled` | vm/page.c:128-139 | joining buddies leaves a tiling by aligned powers of two |
| `Buddy.BuddyIsHead` | vm/page.c:123-126 | where a buddy would begin, some block begins |
| `BuddyChain.ChainNext` | vm/page.c:128-145 | one turn of the joining loop is one link of the chain told from the blocks before the call, though the blocks have changed since |
| `BuddyChain.ChainSame` | vm/page.c:116-126 | marking the pages of the block free does not change which buddies the chain takes in |
| `BuddyChain.PiecesMore` | vm/page.c:62-73 | each split adds a free block of the next smaller size and leaves the pieces split off before alone |
| `PageAlloc.FirstList` | vm/page.c:45-50 | the list index is that of the smallest power of two that covers the request |
| `PageAlloc.Pages.SplitDown` | vm/page.c:62-73 | the splitting loop ends with a listed block of the size wanted and a free block of each size between; no page outside the block split changes |
| `PageAlloc.Pages.Alloc` | vm/page.c:40-86 | a free block of the smallest power of two covering the request, from the front of the smallest free block that covers it, the rest of which is a free block of each size between; nothing else moves and exactly its pages leave pool and accounts; NULL exactly if every free block is too small, and then nothing changes |
| `PageAlloc.Pages.PairIsBuddies` | vm/page.c:123-145 | a pair that passes the loop's test is a block and its free buddy, even when one of the two pointers is stale |
| `PageAlloc.Pages.Absorb` | vm/page.c:128-139 | the buddy leaves its list and the pair becomes one aligned block; no other page changes |
| `PageAlloc.Pages.Stopped` | vm/page.c:123-145 | when the loop stops beside a free buddy, something was absorbed before and the block is a right half |
| `PageAlloc.Pages.Free` | vm/page.c:100-150 | the block grows to exactly what the chain of free buddies before the call reaches, the first on either side and the others on the right; nothing outside it moves, its pages return to pool and accounts; and its buddy is left free and unjoined if and only if something was absorbed and the result is a right half with a free left half |
| `PageAlloc.TwoPairs` | vm/page.c:100-150 | four pages freed in order leave two free blocks of two pages, buddies that are not joined |
| `Ring.List.Add` | lib/list.c:20-35 | the circular pointer list grows by one item at the end |
| `Ring.List.Remove` | lib/list.c:38-53 | the item is gone from the circular list, the others keep their order |
| `Zones.Zone.Alloc` | vm/zone.c:81-99 | a block that was free, and only it, is in use afterwards; NULL exactly if the zone is full |
| `Zones.Zone.Free` | vm/zone.c:102-115 | a block in use, and only it, is free afterwards; a pointer outside the zone changes nothing |
| `Kmalloc.Index` | vm/kmalloc.c:136-144 | the class of a request is the smallest power of two, from 16 on, that holds it |
| `Kmalloc.Heap.constructor` | vm/kmalloc.c:241-278 | the heap starts with a reserve of header blocks and nothing allocated |
| `Kmalloc.Heap.AllocBlock` | vm/kmalloc.c:56-73 | a free block of the size class, and only it, is taken; lists and both counters stay right |
| `Kmalloc.Heap.FreeBlock` | vm/kmalloc.c:76-104 | the block at an address is given back to the zone found by that address, lists and counters stay right; an address in no zone changes nothing |
| `Kmalloc.Heap.Located` | vm/kmalloc.c:40-53 | the zone found around the address of a held block is its zone, and no other zone is around it |
| `Kmalloc.Heap.HeadersListed` | vm/kmalloc.c:107-111 | as long as the header count is positive, a header block can be had |
| `Kmalloc.Heap.AddZone` | vm/kmalloc.c:107-126 | a new zone's header comes out of the reserve; if its pages cannot be had everything is as before |
| `Kmalloc.Heap.Malloc` | vm/kmalloc.c:129-166 | the reserve survives, the block is large enough and was held by nobody; NULL exactly if the size has no class or a zone that was needed could not be made; exactly the zones needed are made |
| `Kmalloc.Heap.Provide` | vm/kmalloc.c:153-157 | a zone of headers is made exactly if one header is left, and a zone of the class exactly if it has no free block; an error exactly if one that was needed could not be had |
| `Kmalloc.Heap.FreeAtom` | vm/kmalloc.c:169-192 | a zone goes exactly if the block was its last in use and it is not the first zone, and then leaves the block of its header to be freed next; no other zone's count changes |
| `Kmalloc.Heap.Free` | vm/kmalloc.c:195-211 | the chain of frees terminates, gives up exactly the one held block, and restores the reserve of header blocks; the zones that go are those of the chain told from the counts before the call |
| `Kmalloc.Heap.FallenMeans` | vm/kmalloc.c:169-211 | a zone that went had one block in use and is not the first; of those that stay one has a block less in use, the others as many as before |
| `Kmalloc.Heap.HeldApart` | vm/kmalloc.c:129-211 | blocks held by callers do not share addresses |
| `Cow.Vm.Alone` | vm/amap.c:211-278 | a private page is shown at no other place of any address space |
| `Cow.Vm.Write` | vm/amap.c:211-278 | a write through a private place is seen there and nowhere else |
| `Cow.Vm.OwnAmap` | vm/amap.c:104-147 | the entry ends with an amap no other entry uses; every place shows the page it did |
| `Cow.Vm.CopyPage` | vm/amap.c:211-278 | the place becomes private, no place anywhere shows other contents, what was private stays so, and reference counts match the slots |
| `Cow.Vm.Force` | vm/map.c:596-658 | an entry marked for copying ends with private pages; nobody sees a difference |
| `Cow.Vm.CopyEntry` | vm/map.c:809-846 | parent and child both show what the parent showed, and every place either may write is private to it |
| `Cow.Vm.MapCopy` | vm/map.c:800-853 | after copying all entries each pair shows the same and is private on both sides where writable; reference counts equal the covered slots that hold each page |
| `Cow.Vm.MapAnonymous` | vm/map.c:488-505 | an eager mapping of anonymous memory has every page to itself, each filled with zero, and changes nobody's view |
| `Cow.Vm.NewObject` | vm/object.c:173-228 | an object brings pages of its own, in nobody's view yet |
| `Cow.Vm.UnmapPart` | vm/map.c:383-437 | unmapping the front, the tail or the middle of an entry frees exactly the pages of that part nobody else refers to, keeps all counts right and other entries' pages, and leaves the remaining pages of the entry where they were, but for those of the object behind an unmapped front |
| `Cow.Vm.FrontRight` | vm/map.c:393-397 | after the front is unmapped the remaining pages are where they were if and only if none of them is the object's |
| `Cow.FrontShifts` | vm/map.c:393-397 | two pages of a file, the first unmapped: what is left shows the first |
| `Cow.Vm.Unmap` | vm/amap.c:31-61 | an entry gives its references back: exactly the pages nobody else refers to are freed, the counts stay right, and nobody else sees a difference |
| `Threads.Scheduler.OnePlace` | proc/threads.c:532-621 | a thread is on at most one list; a ready one on one processor or in the queue of its priority; a sleeper in no ready queue, and in the sleep tree exactly if it has a wakeup time |
| `Threads.Scheduler.NewQueue` | proc/threads.c:1398-1406 | a new wait queue is empty and holds no wakeup, and the invariant holds |
| `Threads.Scheduler.Dequeue` | proc/threads.c:914-939 | a sleeper leaves its queue and the sleep tree and is ready, queued unless it still runs; the invariant holds |
| `Threads.Scheduler.Enqueue` | proc/threads.c:942-969 | a remembered wakeup is used up instead of sleeping; otherwise the thread is last in the queue and asleep |
| `Threads.Scheduler.Sleep` | proc/threads.c:988-1014 | the running thread sleeps with its wakeup time and no queue |
| `Threads.Scheduler.WakeFirst` | proc/threads.c:1050-1054 | exactly the first waiter becomes ready |
| `Threads.Scheduler.Wakeup` | proc/threads.c:1057-1072 | the first waiter goes to the end of its ready queue and the others stay, or the wakeup is kept for the next who comes |
| `Threads.Scheduler.Broadcast` | proc/threads.c:1075-1089 | every waiter goes to the end of its ready queue, in the order they waited, but for those still on a processor; a kept wakeup stays |
| `Threads.Scheduler.TimeIntr` | proc/threads.c:431-459 | exactly the threads whose time has come wake, with -ETIME, and go to the end of their ready queues in the order of their times; wait queues lose them and nothing else, and nobody else changes |
| `Threads.Scheduler.Create` | proc/threads.c:767-843 | the new thread is last in the ready queue of its priority |
| `Threads.Scheduler.End` | proc/threads.c:853-868 | the running thread is a ghost and its processor free; the first who waits for ghosts is woken |
| `Threads.Scheduler.Exit` | proc/threads.c:871-876 | the thread is marked to die, and woken with -EINTR exactly if it may be interrupted |
| `Threads.Scheduler.Reap` | proc/threads.c:894-907 | the oldest ghost is forgotten |
| `Threads.Scheduler.Select` | proc/threads.c:561-578 | the ready queues are read from the best priority on: the dying threads met before the one selected are the new ghosts, in that order; each queue is what is left of it in its order, with those behind it that waited for ghosts, one woken for each; every other thread is as it was |
| `Threads.Best` | proc/threads.c:561-578 | a ready thread that is not dying is never passed over: the one selected has no worse priority, and comes no later in its queue |
| `Threads.Scheduler.Schedule` | proc/threads.c:532-621 | the thread chosen is never worse in priority than any thread that could have gone on, first in first out within a priority; only the dying threads met before it become ghosts, all others stay where they were, and all other processors keep theirs |
| `Locks.StepOrderly` | proc/threads.c:1280-1395 | every atomic step of the lock operations keeps the state in order, kills and interrupts included |
| `Locks.StepProgress` | proc/threads.c:1280-1395 | a step keeps a free lock with waiters attended to if and only if it is not a kill of the last thread attending to it |
| `Locks.MutualExclusion` | proc/threads.c:1280-1395 | in every run at most one thread holds the lock |
| `Locks.Takes` | proc/threads.c:1280-1304 | after every run, a thread in proc_lockSet that gets to look has the lock exactly if it was free; otherwise it sleeps behind all others, or uses up a kept wakeup |
| `Locks.TriesOnce` | proc/threads.c:1319-1336 | after every run, proc_lockTry gets the lock exactly if it is free, and otherwise changes nothing |
| `Locks.Obtains` | proc/threads.c:1280-1304 | in every reachable state with a free lock, a thread about to try it can have it within two steps |
| `Locks.HandsOver` | proc/threads.c:1339-1364 | in every reachable state, proc_lockClear by the holder lets the first waiter have the lock; the rest wait on in their order |
| `Locks.Releases` | proc/threads.c:1339-1364 | after every run, with nobody waiting, proc_lockClear leaves the lock free, keeps no wakeup and touches nobody else |
| `Locks.Leaves` | proc/threads.c:914-939 | after every run, a waiter that is interrupted is out of the queue; the others keep their order and the lock is as it was |
| `Locks.WakeupKept` | proc/threads.c:942-1072 | if the only waiter is interrupted in the middle of proc_lockClear, the next who looks at the busy lock goes round again instead of sleeping |
| `Locks.StepFair` | proc/threads.c:942-1072 | of two waiters the first stays ahead until it is interrupted, and the second is not woken before it |
| `Locks.NobodyStranded` | proc/threads.c:942-1072 | in every run without kills a free lock that has waiters has a thread about to try it or to wake one |
| `Locks.KillsHarmless` | proc/threads.c:1280-1395 | in every run, kills included, a free lock with waiters is attended to all along if and only if no kill takes the last thread attending to it |
| `Locks.KillStrands` | proc/threads.c:570-574 | a run with a kill that leaves a waiter behind for good |
| `Locks.Set2` | proc/threads.c:1367-1381 | in every run, kills included, whoever is blocked in proc_lockSet2 holds neither lock and whoever is through holds both, alone |
| `Locks.Set2Gets` | proc/threads.c:1367-1381 | with both locks free, proc_lockSet2 has both after three steps |
| `Locks.Set2Yields` | proc/threads.c:1367-1381 | when the second is busy, the first is given up and the busy one is waited for first |
| `Locks.Set2Init` | proc/threads.c:1367-1381 | any threads at the start of proc_lockSet2, both locks free, are a state the runs begin from |
| `MsgPages.WindowSpans` | proc/msg.c:34-152 | the window has as many pages as the data touches, and the end offset lies in its last page |
| `MsgPages.ReleasedLength` | proc/msg.c:155-198 | working from the address msg_map returned, msg_release unmaps exactly the window that was mapped |
| `MsgPages.ReleasedAfterFailure` | proc/msg.c:425-439 | working from the null address of a failed msg_map, it unmaps the whole window if and only if the offset of the data in its page and the size less one, modulo the page size, add up to less than a page, and one page less otherwise |
| `MsgPages.PageLeftBehind` | proc/msg.c:79-198 | two bytes across a page boundary: two pages mapped, one unmapped |
| `MsgPages.Memory.MsgMap` | proc/msg.c:34-152 | the window shows the sender's bytes for every address and length, and only the shadow pages are written |
| `MsgPages.SamePage` | proc/msg.c:62-152 | a byte whose page the sender has once in the range shares its physical place with no other byte of the message, even when one page shadows both ends |
| `MsgPages.Memory.WriteBack` | proc/msg.c:476-488 | exactly the message's bytes reach the sender, as the window shows them, wherever the sender has a page once in the range |
| `MsgPages.Memory.Exchange` | proc/msg.c:34-198 | from mapping to response, whatever the receiver writes arrives at its place and no other byte of the sender changes, on every page the sender has once in the range |
| `MsgPages.Memory.ExchangeBoth` | proc/msg.c:419-490 | with both windows, first i then o copied back: a byte the receiver wrote to o arrives unless i has a copy of it and o has not, and nothing outside o changes |
| `MsgPages.ApartNotStale` | proc/msg.c:476-488 | input and output that have no byte in common lose none |
| `MsgPages.AnswerLost` | proc/msg.c:476-488 | a byte sent from the middle of a page that the answer fills: what is written over it is lost |
| `Messages.Port.Promises` | proc/msg.c:305-504 | messages leave the queue in the order sent but for those withdrawn, each is delivered and answered at most once, and no sender returns while its message is queued or in a server's hands |
| `Messages.Port.Send` | proc/msg.c:328-335 | the message is last in the queue, or refused if the port is closed |
| `Messages.Port.Recv` | proc/msg.c:377-403 | the loop goes on waiting exactly on an empty open port without an interrupt; otherwise the oldest message is delivered, or rejected if the port is closed, or an interrupt ends the call and leaves the queue alone |
| `Messages.Port.Answer` | proc/msg.c:494-499 | a message in a server's hands is answered once |
| `Messages.Port.SenderWakes` | proc/msg.c:337-363 | the sender returns only when its message is answered, or withdrawn while still queued; success exactly if it was responded to, else the error that ended the wait, or -EINVAL for a message that was rejected |
| `Asids.Allocator.constructor` | hal/armv7a/imx6ull/pmap.c:538-584 | the initial table is a permutation with no slot taken |
| `Asids.Allocator.Unshared` | hal/armv7a/imx6ull/pmap.c:106-150 | no two address spaces share a hardware identifier |
| `Asids.Allocator.NextSlot` | hal/armv7a/imx6ull/pmap.c:108-118 | the slot is free if one is, else its holder is not the running address space |
| `Asids.Allocator.Alloc` | hal/armv7a/imx6ull/pmap.c:106-126 | at most one other address space loses its identifier, never the running one |
| `Asids.Allocator.Dealloc` | hal/armv7a/imx6ull/pmap.c:129-150 | the identifier is given back and every other address space keeps its hardware identifier |
| `Cbuffer.Ring.Free` | lib/cbuffer.h:27-33 | free space and contents add up to the size |
| `Cbuffer.Ring.Write` | lib/cbuffer.c:30-55 | as many bytes as fit are appended to the contents, round the end and with the full flag |
| `Cbuffer.Ring.Read` | lib/cbuffer.c:58-83 | the oldest bytes are returned and removed |
| `Cbuffer.Ring.Discard` | lib/cbuffer.h:42-47 | the bytes asked for are dropped from the front if and only if that many are free |
| `Cbuffer.DiscardOne` | lib/cbuffer.h:42-47 | three bytes in a ring of four, two of them discarded: only one goes |
| `Datagrams.FlatAppend` | posix/unix.c:670-683 | a sent message is appended, length first, to the stream of those before |
| `Datagrams.Socket.Send` | posix/unix.c:670-700 | all of the message or nothing is in the stream |
| `Datagrams.Socket.Recv` | posix/unix.c:593-607 | the next message, whole if the buffer is large enough; boundaries of the following ones are kept, when truncating exactly if the rest fits the free space |
| `Files.Posix.Get` | posix/posix.c:188-209 | a reference for the duration of a call, exactly for open descriptors |
| `Files.Posix.Release` | posix/posix.c:154-174 | the end of a call gives its reference back; the last one closes the file |
| `Files.Posix.Close` | posix/posix.c:581-610 | the descriptor is free and its file has one reference less, exactly for open descriptors |
| `Files.Posix.NewFile` | posix/posix.c:212-238 | the lowest free descriptor from the given one on, refusal exactly if there is none |
| `Files.Posix.Dup` | posix/posix.c:693-732 | the lowest free descriptor refers to the same file |
| `Files.Posix.Dup2` | posix/posix.c:736-762 | the second descriptor refers to the first one's file; counts are right exactly if the descriptors differ or there is another reference |
| `Files.DupOntoItself` | posix/posix.c:736-762 | in a new process, dup2 of descriptor 0 onto itself leaves it referring to a closed file |
| `Files.Posix.Clone` | posix/posix.c:290-382 | the child's table is the parent's and every open file gains one reference for each descriptor |
| `Files.Posix.Start` | posix/posix.c:320-373 | a process without a parent has three new files at the standard descriptors and no other |
| `Files.Posix.SetCloexec` | posix/posix.c:1191-1213 | the close-on-exec mark of an open descriptor changes and nothing else; -EBADF exactly otherwise |
| `Files.Posix.Exec` | posix/posix.c:402-424 | exactly the descriptors marked close-on-exec are closed |
| `Files.Posix.Exit` | posix/posix.c:427-442 | all descriptors of the process are given up; references still equal descriptors plus calls in progress |

## Left out

- MapUnmap.Unmap: requires the range to lie inside whatever entry it meets, because outside it the fields wrap around and the tree is no longer ordered; MapUnmap.ClearedIffInside states exactly when the spans are right, and MapUnmap.Narrow that the branches write them for every range. It is about the entry tree: on -ENOMEM the anonymous pages of the range have already been given back.
- MapSpace.Map: where amaps have no room, amap_clear writes beyond the end of one; that write is left out. Pages are those of one map: an amap shared with another one is in Cow.
- MapSlots.OwnSlots: requires an entry on page boundaries, as _vm_mmap makes them, and memory for the new amap.
- IdSearch.Alloc: keeps the size of a gap where the kernel keeps one bit, whether it is positive.
- Cow.Vm.MapCopy: the eager setting only, with allocations that succeed and without physical-memory mappings; a lazily faulted mapping is not modelled.
- Kmalloc.Heap.Malloc: takes the outcome of page allocation and mapping as parameters, at addresses no zone uses.
- Threads.Scheduler.Schedule: does not model the context switch, processor time accounting and signal delivery; the sleep tree is a set ordered by wakeup time.
- Messages.Port.Recv: packing of small payloads into the message itself is not modelled.
- Messages.Port.Answer: requires the message to be in a server's hands; the reply identifier is an address that proc_respond takes on trust.
- Datagrams.Socket.Recv: does not model blocking, peer lookup and descriptor passing.
- Files.Posix.Exit: drops the table at once, where the source keeps it, unused, until the process information is freed.
- Cow.Vm.UnmapPart: merging an entry with a neighbour over one amap is in MapSpace, without reference counts.
- Cow.Vm.Unmap: page numbers are names; a page freed and allocated again gets a new one.
- Kmalloc.Heap.Lookup: the tree of zones is a list here; the tree itself is the one of GapTree.
- PageAlloc.Pages.constructor: fewer than 524288 pages (2 GiB), so that 1 << idx is a positive int for every block; it starts from single allocated pages, because the bootstrap of the page array is not modelled.
- Files.Posix.Close: counts how often the backing object is closed; what its server does is not modelled.
- Reference counts of ports, processes and resources.
- unixsock_alloc, which repeats the port id search.
- Page tables, caches, context switching and all drivers under hal/.
- Boot, ELF loading, vfork and exec of programs, system call unpacking.
- The variants for machines without an MMU.
- Diagnostics: dumps, statistics, performance events.
