# Lume kernel core in Dafny

A model of the core of the Lume kernel (the `na/` tree, RISC-V 64) with proofs of what its parts
promise. Code that works in place is modelled by classes and loops; each such method is proved
against a specification function, and the properties that span calls are proved about that function.
`dafny verify dfyconfig.toml` checks everything.

| part | modules | main results |
|---|---|---|
| red-black trees | `RbShape`, `RbMemory`, `RbCases`, `RbTree` | insertion and erasure by parent pointers keep every red-black rule and change the in-order sequence by exactly one node; height is at most 2 log2(n + 1) |
| user address spaces | `VmaList`, `AreaTree`, `UnmapTree`, `AreaLoops`, `AddressSpace`, `UserTable`, `FramePool`, `PageLoops`, `VmSteps`, `VmFork`, `VmRuns`, `Vmm` | over every run of harmless steps copy-on-write is invisible: programs read and write as if every fork had copied eagerly, each count is the number of mappings, and areas are a page-to-permission function; which steps are harmless is exact |
| Sv39 tables | `Sv39` | the radix table is a finite map; table pages form an unshared tree; `destroy` frees each of them once |
| page allocator | `Powers`, `BuddyBlocks`, `Pmm` | blocks tile the managed frames over every call; the merge test is exact although interior descriptors are out of date; an allocation fails if and only if there is no free aligned run |
| early allocator | `Memblock`, `HandOff` | lowest and highest fit; the frames that reach the page allocator are exactly RAM minus the reservations |
| slab | `Slab` | live objects are aligned, large enough and apart, whatever their owners store; a page is given back exactly when nothing lives in it |
| scheduler | `RunQueue`, `Scheduler`, `Turns`, `Effects` | over every interleaving each task is in exactly one place, so no wake-up is lost and no task queued twice; strict priority, and nobody on a wait queue or a level of a run queue is overtaken; a task that goes to sleep is off its CPU and on its queue until the wake that is its turn |
| boot image | `Lz4`, `Lz4Format`, `LoadBase` | the decoder undoes the packer, and accepts exactly the blocks of the format, giving exactly the bytes that they stand for; the load-base search is optimal and its pass limit is never reached |
| device tree | `Fdt`, `FdtTree`, `FdtManager`, `FdtScan` | unflattening undoes serialisation; the early scan finds what a search of the tree finds |
| exception table | `Extable` | sorting position-relative entries keeps the absolute pairs; binary search agrees with linear search of the original table |
| first fit | `FirstFit` | the least fitting address, and exactly for which lengths and alignments 64-bit rounding allows that |

`Basics`, `Options`, `Powers`, `Rounding` and `Distinct` hold shared definitions: bytes, pages and words,
options, powers of two with the buddy address, rounding to multiples, and lists without repetition.

## How the model is built

- **Pointers.** A red-black node is a number, and the nodes are a map field of the class `Root`; the
  tree itself is a ghost. A `Path` is the way from the root to a hole, so a rebalancing loop is a walk
  of a path and a subtree (`Zip`). The mirrored halves of the source's loops are one body with a `Side`.
- **Two layers.** `Vmm` works on the sorted sequence of areas, a finite map of page-table entries, and
  counts and a pool of frames. `AreaTree`, `UnmapTree` and `AreaLoops` show that the red-black tree with the
  source's order functions is that sequence, through whole loops in which areas change in place. `UserTable`
  shows that the Sv39 tables with the source's flag words are that map, `FramePool` that counts and pool are
  those of the page allocator, and `PageLoops` runs the page loops on tables and allocator together.
- **Pages.** `AddressSpace.Sys` is all spaces, reference counts, the pool of free frames and the
  contents of frames. Addresses are pages; the methods of `Vmm` take bytes and round as the source does.
- **Locks.** A region that holds a lock is one step. A waker that has taken a task off a wait queue and
  not yet queued it is a state of its own (`WakeTake`, `WakePut`), and other CPUs may step in between.
- **Integers.** Integers are unbounded except where width matters: `Lz4` (32-bit lengths and result),
  `FirstFit` and `LoadBase` (64-bit rounding and ends), `Extable` (32-bit offsets), `Sv39` (the fields
  of an entry), `RunQueue` (32-bit bitmap), `Vmm` (64-bit ranges).
- **Outside.** Allocation results, out-of-memory, randomness and the packer's hash are parameters.

## Where the code does less than one might expect

- `VmRuns.StepValidIff` gives, for every operation, the exact condition under which the invariant of
  address spaces survives it. The cases that fail are these.
- A protect call that grants write to a shared page that is not copy-on-write breaks isolation
  (`VmRuns.GrantedWriteLeaks`); `VmSteps.ProtectPrivateIff` says exactly when it does not.
  `VmRuns.IsolatedIffPrivate` shows that nothing weaker than "every writable page has count 1" would do.
- A protect call that leaves only W on a copy-on-write page, or nothing but U on any page, hides the page
  from `lookup`, exactly as `VmSteps.ProtectKeepsSeen` says. In the first case the next write fault maps a
  fresh frame over it, so that the data is lost and the old frame's count stays too high
  (`VmRuns.HiddenPageLost`).
- A fork hides a page that can only be written in the same way (`VmRuns.ForkHides`): `Sv39.CowStaysLeaf` and
  `VmRuns.ForkKeepsSeen` give the exact condition.
- A fork that cannot get a page-table page half-way through an area leaves the frames of that area's
  pages so far with one count too many, and no others (`VmRuns.HalfForkLeaks`, in general
  `VmFork.FailedFork`).
- Addresses that differ by 2^39 use the same entry (`Sv39.PagesAlias`).
- `memblock_for_each_free` reports memory beyond the end of RAM when the last byte is free
  and a reservation begins past the end: `Memblock.OverrunExample`, and `Memblock.GapsExactIff` for the exact condition.
- `memblock_alloc_top` of more than all of RAM can answer with an address far outside it:
  `Memblock.WrapExample`, and `Memblock.Memblock.AllocTop` for exactly when. So can `memblock_alloc`:
  `Memblock.LowWrapExample` and `Memblock.LowRightIff`.
- `find_gap_from` misses gaps between ranges when its first candidate wraps around:
  `LoadBase.WrapRightIff`.
- With a RAM base that is not page-aligned the wrong frames are fed to the page allocator, whatever the size:
  `HandOff.UnalignedBase`, and `HandOff.RightFramesIff` for the exact condition.
- An empty reservation in the middle of free memory splits it into two gaps (`Memblock.SplitExample`, exactly
  when: `Memblock.GapsSpacedIff`). The frames are still right, but free buddies may stay apart, so that a free
  run is not found (`HandOff.SplitBuddies`).
- `early_scan_mem` reads a value that is shorter than its cells on into what follows it
  (`FdtScan.EarlyScanTree`).
- An exception-table entry survives a swap if and only if its offset fits in 32 bits after the move
  (`Extable.RewrittenIff`).
- `mm_find_free_va` can return an address that does not fit, or none although one fits, when rounding
  wraps: `FirstFit.TooLong`, `FirstFit.TooCoarse`, and `FirstFit.AlwaysRightIff` for the exact condition.
- An unmap call that needs a new area and gets none has dropped the pages but kept the area
  (`Vmm.UnmapFailed`).
- A device tree deeper than 16 levels is refused (`FdtManager.UnflattenTree`).

## Model

| member | source | states |
|---|---|---|
| RbTree.Root.constructor | na/include/lume/rbtree_types.h:26-26 | an empty root is a valid tree over any node memory |
| RbTree.Root.ChangeChild | na/include/lume/rbtree_augmented.h:75-87 | redirects the one link (root or child of the parent) that held the old node and writes nothing else |
| RbTree.Root.RotateSetParents | na/lib/rbtree.cc:74-82 | the new node takes the old one's parent, colour and place in the path above; the old one becomes its child; no other node changes |
| RbTree.Root.InsertNear | na/lib/rbtree.cc:140-220 | the outer rotation of insertion gives exactly the rotated and recoloured subtree, with all links right, and touches only that neighbourhood |
| RbTree.Root.InsertFar | na/lib/rbtree.cc:84-220 | the inner double rotation of insertion gives exactly the twice rotated subtree with all links right |
| RbTree.Root.InsertColor | na/lib/rbtree.cc:84-220 | from any tree with one red node that may have a red parent, the loop ends with a valid red-black tree of the same in-order sequence, writing only nodes of the tree |
| RbTree.Root.LinkNode | na/include/lume/rbtree.h:69-75 | hangs a red leaf in the empty place, with its links and its parent's |
| RbTree.Root.Add | na/include/lume/rbtree.h:124-141 | the in-order sequence gains exactly the node; under a strict weak order on a sorted tree it goes after all that are not greater and before all that are; all red-black rules hold again |
| RbCases.InsertKeepsSorted | na/include/lume/rbtree.h:124-141 | that place keeps the sequence sorted |
| RbShape.BlackHeightBounds | na/lib/rbtree.cc:13-40 | a balanced tree of black height b has at least 2^b - 1 nodes and height at most 2b, one more under a red root |
| RbShape.HeightIsLogarithmic | na/lib/rbtree.cc:13-40 | 2^height is at most (n + 1)^2 for every red-black tree |
| RbShape.RotateInOrder | na/lib/rbtree.cc:140-220 | a rotation, whatever it recolours, keeps the in-order sequence |
| RbTree.Root.RaiseRedSibling | na/lib/rbtree.cc:226-407 | erasure case 1: a red sibling is rotated above the parent, and the short hole has a black sibling |
| RbTree.Root.RecolorSibling | na/lib/rbtree.cc:226-407 | erasure case 2: the tree is valid, or the hole is one level up; it climbs exactly when the parent is black and not the root |
| RbTree.Root.RaiseSiblingFar | na/lib/rbtree.cc:226-407 | erasure case 3 with case 4: the near red nephew ends on top with the parent's colour and all links are right |
| RbTree.Root.RaiseSiblingNear | na/lib/rbtree.cc:226-407 | erasure case 4: the sibling ends on top with the parent's colour over two black children |
| RbTree.Root.EraseColor | na/lib/rbtree.cc:226-407 | from any tree that is one black short at one leaf, the loop ends with a valid red-black tree of the same sequence; it ends because the hole climbs |
| RbTree.Root.SpliceOut | na/include/lume/rbtree_augmented.h:92-172 | a node with at most one child is replaced by that child, painted with its colour |
| RbTree.Root.Successor | na/include/lume/rbtree_augmented.h:92-172 | the loop finds the first node in order of the right subtree, and its parent |
| RbTree.Root.PullSuccessor | na/include/lume/rbtree_augmented.h:92-172 | exactly which links of the successor, its parent and the erased node's child change |
| RbTree.Root.EraseNode | na/include/lume/rbtree_augmented.h:92-172 | takes the node out in all three cases; the rest is red-black, or one black short exactly at the returned node |
| RbTree.Root.Erase | na/lib/rbtree.cc:438-444 | the in-order sequence loses exactly that node, all red-black rules and links hold again, and memory outside the tree is unchanged |
| RbTree.Root.First | na/lib/rbtree.cc:574-584 | the first node in order, or null when there is none |
| RbTree.Root.Outermost | na/lib/rbtree.cc:574-584 | the first or last node in order of any subtree |
| RbShape.InOrderOnce | na/lib/rbtree.cc:460-517 | no node is twice in the in-order sequence, so next and previous are well defined |
| RbTree.Root.Neighbor | na/lib/rbtree.cc:460-517 | the next or previous node in order, or null at the end |
| RbTree.Root.Climb | na/lib/rbtree.cc:460-517 | the loop ends at the first node above that is on the wanted side, or null when there is none |
| RbTree.Root.Find | na/include/lume/rbtree.h:165-181 | what is found compares equal; when the comparison agrees with the order, nothing found means that nothing compares equal |
| VmaList.InsertIsAdd | na/mm/vma.cc:230-255 | the place that an ordered red-black insertion chooses is where the area sequence gets the new area |
| AreaTree.OrderedByStart | na/mm/vma.cc:31-37 | sorted areas are in the order of `vma_less`, which is a strict weak order |
| AreaTree.ComparesInOrder | na/mm/vma.cc:39-46 | `vma_cmp` agrees with that order |
| AreaTree.AddArea | na/include/lume/rbtree.h:124-141 | adding an area to the tree inserts it in the sequence of areas at its place |
| AreaTree.EraseArea | na/lib/rbtree.cc:438-444 | erasing an area from the tree takes exactly it out of the sequence |
| AreaTree.FindArea | na/include/lume/rbtree.h:165-181 | finds the area that has the page and gives its permissions; null if and only if the page is in no area |
| AreaTree.FirstArea | na/lib/rbtree.cc:574-584 | the node of the first area; null exactly when there is none |
| AreaTree.NextArea | na/lib/rbtree.cc:460-489 | the node of the next area; null exactly after the last |
| UnmapTree.SetArea | na/mm/vma.cc:300-306 | changing the area of a linked node in place changes one element of the sequence of areas |
| UnmapTree.MoveFront | na/mm/vma.cc:296-300 | erasing a node, moving the front of its area and adding it again leaves the tree's order as it was |
| UnmapTree.TakeOut | na/mm/vma.cc:293-316 | the four ways to take a range out of an area of the tree; what comes after stays, so that a remembered next node is still the next |
| UnmapTree.UnmapAreas | na/mm/vma.cc:267-320 | the unmap loop over the red-black tree leaves exactly what lies outside the range; it fails, and changes no area, if and only if a split needs a node and there is none |
| AreaLoops.Overlaps | na/mm/vma.cc:71-82 | over the tree: true if and only if some area meets the range |
| AreaLoops.RangeCovered | na/mm/vma.cc:84-103 | over the tree: true if and only if every page of the range is in an area |
| AreaLoops.MergeNeighbors | na/mm/vma.cc:105-127 | over the tree: an area is joined with the one before and the one after, in place and by erasing a node |
| AreaLoops.MapArea | na/mm/vma.cc:230-255 | over the tree: the areas become those of the map step, or stay when the range is taken |
| AreaLoops.SplitNode | na/mm/vma.cc:129-148 | over the tree: an area is split in place and by adding a node; fails exactly when a split is needed and there is no node |
| AreaLoops.SplitAt | na/mm/vma.cc:150-173 | over the tree: find and split cuts the sequence of areas at the address |
| AreaLoops.SetAreas | na/mm/vma.cc:345-384 | over the tree: the loop sets the permissions of exactly the areas of the range |
| AreaLoops.ProtectAreas | na/mm/vma.cc:323-391 | over the tree: the areas become those of the protect step, also when it fails |
| AreaLoops.DestroyAreas | na/mm/vma.cc:196-224 | over the tree: every area is visited once, in order, and the tree ends empty |
| VmaList.MapVmasSpec | na/mm/vma.cc:105-127 | inserting and merging keeps areas sorted and apart and changes the permission of exactly the new pages |
| VmaList.OverlapIffMapped | na/mm/vma.cc:71-82 | areas meet a range if and only if a page of it is mapped |
| VmaList.MergePermAt | na/mm/vma.cc:105-127 | a merge changes no page's permission |
| VmaList.UnmapVmasSpec | na/mm/vma.cc:257-321 | trimming, splitting and removing areas unmaps exactly the range and keeps areas sorted |
| VmaList.ProtectVmasSpec | na/mm/vma.cc:323-391 | protecting changes exactly the mapped pages of the range and keeps areas sorted |
| VmaList.CutSpec | na/mm/vma.cc:129-173 | a split changes no page's permission and leaves no area across the cut |
| Vmm.ProtectIsCut | na/mm/vma.cc:323-391 | splitting at both ends and then setting permissions area by area is protecting page by page |
| AddressSpace.FreeIffUnmapped | na/mm/pmm.cc:354-366 | a frame is in the pool if and only if no entry of any space points to it |
| AddressSpace.DropPageCounted | na/mm/vma.cc:257-321 | dropping a page keeps every count equal to the number of mappings and the pool exact |
| AddressSpace.CopyPageCounted | na/mm/vma.cc:475-503 | so does a copy-on-write copy |
| AddressSpace.SharePageCounted | na/mm/vma.cc:530-593 | so does sharing a page with a child |
| VmSteps.MapValid | na/mm/vma.cc:230-255 | mapping keeps the invariant (counts are mapping counts, writable pages have count 1, entries lie in areas, are visible, and grant what the area grants, except that a copy-on-write entry withholds W) if and only if it stays below 2^39 |
| VmSteps.UnmapValid | na/mm/vma.cc:257-321 | unmapping keeps the invariant, also when there is no memory for a new area |
| VmSteps.ProtectValid | na/mm/vma.cc:323-391 | protecting keeps the invariant if and only if it neither hides a mapped page of its range nor makes a shared one writable; a failed split always keeps it |
| VmSteps.ProtectPrivateIff | na/mm/vma.cc:362-381 | protecting keeps writable pages private if and only if it grants write to no page of the range that is shared and not copy-on-write |
| VmSteps.ProtectKeepsSeen | na/mm/vma.cc:370-378 | an entry is visible after protecting if and only if R, X, or W without a COW mark is left |
| VmSteps.FaultValid | na/mm/vma.cc:456-524 | a fault keeps the invariant, whatever the page allocator gives |
| VmFork.CloneDone | na/mm/vma.cc:530-593 | the whole state after a fork: parent and child have the same areas and the same entries, and counts are right |
| VmFork.CloneValid | na/mm/vma.cc:530-593 | a fork, however it ends, keeps the invariant if and only if it comes to no page that can only be written and leaves no page behind |
| VmFork.FailedFork | na/mm/vma.cc:545-581 | the whole state after a fork that runs out of memory: the child is gone, the pages come to are marked, and each page left behind in an area that was not complete has added one to the count of its frame |
| VmFork.FailedCounts | na/mm/vma.cc:574-581 | then the counts are right if and only if nothing was left behind |
| VmSteps.DestroyValid | na/mm/vma.cc:196-224 | destroying a space keeps the invariant of the others |
| VmRuns.CopySeesSame | na/mm/vma.cc:475-503 | after a copy-on-write copy every space reads what it read before |
| VmRuns.FaultEager | na/mm/vma.cc:456-524 | a fault brings in a page exactly when the access is allowed, the page is missing and memory is at hand, and changes nothing that any space reads otherwise |
| VmRuns.CloneEager | na/mm/vma.cc:530-593 | a fork is an eager copy of areas and mapped pages; one that fails changes nothing that any space reads |
| VmRuns.PutEager | na/arch/riscv/mm/pmap.cc:269-287 | a store through a writable entry changes one page of one space and nothing that another page or space reads |
| VmRuns.StoreEager | na/mm/vma.cc:475-519 | read your writes: a store instruction, with the page fault it may take, is exactly the store of the eager system; it does nothing only where the area forbids it or memory runs out |
| VmRuns.StepSafe | na/mm/vma.cc:196-593 | a harmless step is a step of the eager system |
| VmRuns.RunSafe | na/mm/vma.cc:196-593 | every run of harmless steps from every valid state reads and writes as in a system that copies at fork and never shares |
| VmRuns.BootSafe | na/mm/vma.cc:196-593 | so does every such run from no spaces and all frames free, and in every state no store is seen elsewhere |
| VmRuns.WriteFaultGrants | na/mm/vma.cc:475-519 | a write fault leaves the page writable if and only if the area allows it and memory is at hand, and otherwise changes nothing |
| VmRuns.StepValidIff | na/mm/vma.cc:196-593 | the invariant survives a step if and only if the step is harmless, for every operation |
| VmRuns.IsolatedIffPrivate | na/mm/vma.cc:456-593 | no store is seen elsewhere if and only if every writable entry is alone on its frame |
| VmRuns.GrantedWriteLeaks | na/mm/vma.cc:371-377 | a concrete valid state in which newly granting write makes a store visible in another space |
| VmRuns.HiddenPageLost | na/mm/vma.cc:505-519 | a concrete valid fork in which protecting to W only and then faulting loses the page and leaves a wrong count |
| VmRuns.ForkHides | na/mm/vma.cc:555-572 | a concrete valid state with a page that can only be written: after a fork neither side sees it |
| VmRuns.HalfForkLeaks | na/mm/vma.cc:574-581 | a concrete fork that fails between two page-table pages and leaves the first frame with count 2 |
| VmRuns.ForkKeepsSeen | na/mm/vma.cc:530-593 | a forked page stays visible in parent and child exactly under the stated permissions |
| Vmm.Vmm.constructor | na/mm/vma.cc:179-194 | no spaces and all frames free is a valid state |
| Vmm.Vmm.PageDecref | na/mm/pmm.cc:356-366 | one reference less; the last returns the frame to the pool |
| Vmm.Vmm.DropRange | na/mm/vma.cc:257-321 | the page loop drops exactly the mapped pages of the range |
| Vmm.Vmm.UnmapOne | na/mm/vma.cc:257-321 | one area is trimmed, split or removed, and its pages of the range dropped; it fails exactly when a split needs an area and there is none |
| Vmm.Vmm.UnmapPages | na/mm/vma.cc:257-321 | the loop over areas is the unmap step; out of memory exactly when one area contains the range with room on both sides |
| Vmm.Vmm.UnmapUser | na/mm/vma.cc:257-321 | with the byte range rounded and checked as the source does, and each error code exactly |
| Vmm.PageRange | na/mm/vma.cc:230-238 | a byte range is refused, empty or the least pages that hold it, each exactly when: in 64 bits, not page 0, and up to the user limit |
| Vmm.UnmapFailed | na/mm/vma.cc:257-321 | the state after running out of memory: pages dropped, areas kept |
| Vmm.Vmm.VmaOverlaps | na/mm/vma.cc:71-82 | true if and only if some area meets the range |
| Vmm.Vmm.RangeCovered | na/mm/vma.cc:84-103 | true if and only if every page of the range is in an area |
| Vmm.Vmm.MergeNeighbors | na/mm/vma.cc:105-127 | merges with the area before and the one after, in that order |
| Vmm.Vmm.MapUser | na/mm/vma.cc:230-255 | the map step, with each error code exactly |
| Vmm.Vmm.SplitVma | na/mm/vma.cc:129-173 | cuts the areas at the address; fails exactly when a cut is needed and there is no memory |
| Vmm.Vmm.ProtectRange | na/mm/vma.cc:362-381 | the page loop rewrites or drops exactly the mapped pages of the range |
| Vmm.Vmm.ProtectAll | na/mm/vma.cc:350-391 | the loop over areas of a range that is cut out |
| Vmm.Vmm.ProtectUser | na/mm/vma.cc:323-391 | the protect step, with each error code exactly |
| Vmm.Vmm.HandlePageFault | na/mm/vma.cc:456-524 | the fault step; -EFAULT if and only if no area allows the access; 0 if and only if the access goes through afterwards |
| Vmm.Vmm.ShareRange | na/mm/vma.cc:551-587 | the page loop of a fork shares exactly the mapped pages of the area, or stops with the page that cannot be mapped |
| Vmm.Vmm.CloneSpace | na/mm/vma.cc:530-593 | the two loops of a fork are the fork step, with every way to run out of memory |
| Vmm.Vmm.DestroySpace | na/mm/vma.cc:196-224 | the loops of `destroy` drop every page of every area in the tree once and remove the space, also for a child that is not complete |
| Sv39.EncodeDecodes | na/arch/riscv/mm/pmap.cc:55-64 | frame number and flags of an entry read back |
| Sv39.EntryLayout | na/arch/riscv/mm/pmap.cc:55-64 | the frame number stands above the ten flag bits |
| Sv39.FlagsSpec | na/arch/riscv/mm/pmap.cc:132-152 | the flags that are written are valid, and a leaf exactly when the permissions are |
| Sv39.CowSpec | na/arch/riscv/mm/pmap.cc:269-287 | `make_cow` keeps frame and V, clears W and sets the COW bit |
| Sv39.CowStaysLeaf | na/arch/riscv/mm/pmap.cc:269-287 | the entry is still a leaf if and only if it had R or X |
| Sv39.VpnIsIndex | na/arch/riscv/mm/pmap.cc:49-52 | the three index fields are the base-512 digits of the page number |
| Sv39.AddressParts | na/arch/riscv/mm/pmap.cc:49-52 | below 2^39 an address is its three indices, at 2^30, 2^21 and 2^12, and its place in the page |
| Sv39.PagesApart | na/arch/riscv/mm/pmap.cc:49-52 | below 2^39 two addresses use the same entry if and only if they are on one page |
| Sv39.PagesAlias | na/arch/riscv/mm/pmap.cc:49-52 | addresses 2^39 apart use the same entry |
| Sv39.Walk | na/arch/riscv/mm/pmap.cc:234-251 | each table on a walk is the only one with its place in the tree |
| Sv39.SetLeaf | na/arch/riscv/mm/pmap.cc:132-152 | writing one leaf changes that page's entry and no other, and keeps the tree |
| Sv39.AddTableTree | na/arch/riscv/mm/pmap.cc:79-100 | a fresh table page keeps the unshared tree |
| Sv39.AddTableEntries | na/arch/riscv/mm/pmap.cc:79-100 | and changes no page's entry |
| Sv39.Pmap.constructor | na/arch/riscv/mm/pmap.cc:102-105 | a fresh root is a valid tree that maps nothing |
| Sv39.Pmap.Map | na/arch/riscv/mm/pmap.cc:132-152 | map update: the page gets the entry, no other page changes; fails exactly when a table page is missing and cannot be had |
| Sv39.Pmap.Unmap | na/arch/riscv/mm/pmap.cc:181-191 | map removal: the entry is 0, no other page changes |
| Sv39.Pmap.Protect | na/arch/riscv/mm/pmap.cc:193-209 | new flags, same frame, no other page changes; fails exactly when the page is not mapped |
| Sv39.Pmap.Lookup | na/arch/riscv/mm/pmap.cc:234-251 | map lookup |
| Sv39.Pmap.IsCow | na/arch/riscv/mm/pmap.cc:253-267 | true if and only if the page is mapped with the COW bit |
| Sv39.Pmap.MakeCow | na/arch/riscv/mm/pmap.cc:269-287 | makes that one entry copy-on-write; fails exactly when the page is not mapped |
| Sv39.Pmap.Destroy | na/arch/riscv/mm/pmap.cc:107-130 | frees every table page once, and nothing else |
| UserTable.EntryReads | na/arch/riscv/mm/pmap.cc:296-306 | the flag word of an area's permissions, with or without COW, is written and read as the entry that is meant, U, A and D included |
| UserTable.CowReads | na/arch/riscv/mm/pmap.cc:269-287 | on the entry `make_cow` clears W, sets COW and keeps frame, R, X, U, A and D |
| UserTable.TablesThere | na/arch/riscv/mm/pmap.cc:79-100 | a page that has an entry needs no table page, so that a copy-on-write copy cannot fail for want of one |
| UserTable.NewTable | na/arch/riscv/mm/pmap.cc:102-105 | on the finite map: a new table has no entries |
| UserTable.LookupPage | na/arch/riscv/mm/pmap.cc:234-251 | on the finite map of entries: the frame of an entry that has R, W or X |
| UserTable.IsCowPage | na/arch/riscv/mm/pmap.cc:253-267 | on the finite map: there is such an entry, and it is marked |
| UserTable.MapPage | na/arch/riscv/mm/pmap.cc:132-152 | on the finite map: sets that one entry, or changes nothing when a table page cannot be had |
| UserTable.UnmapPage | na/arch/riscv/mm/pmap.cc:181-191 | on the finite map: removes that one entry |
| UserTable.ProtectPage | na/mm/vma.cc:371-378 | on the finite map: new permissions for that entry, where a COW mark survives as long as W is granted |
| UserTable.CowPage | na/arch/riscv/mm/pmap.cc:269-287 | on the finite map: makes that one entry copy-on-write |
| FramePool.TakeFrame | na/mm/pmm.cc:260-300 | hands out a frame of the pool with one reference, which leaves the pool; or changes nothing of it |
| FramePool.KeepFrame | na/mm/pmm.cc:354-354 | one reference more, as `AddressSpace` counts it |
| FramePool.DropFrame | na/mm/pmm.cc:356-366 | one reference less; the last returns the frame to the pool |
| PageLoops.DropRange | na/mm/vma.cc:284-291 | the page loop of unmap on Sv39 tables and the page allocator is that of the unmap step |
| PageLoops.ProtectRange | na/mm/vma.cc:358-384 | so is that of protect |
| PageLoops.FaultPage | na/mm/vma.cc:473-523 | a fault on Sv39 tables and the page allocator is the fault step, also when memory runs out |
| PageLoops.ShareOne | na/mm/vma.cc:552-586 | one page of a fork on two tables and the page allocator is that of the fork step, also when the child cannot map it |
| Powers.BuddyHalves | na/mm/pmm.cc:109-115 | a block and its buddy are the two halves of one aligned block of the next order, and the buddy's buddy is the block |
| BuddyBlocks.OwnerOfBuddy | na/mm/pmm.cc:181-205 | the buddy of a block, if managed, is the head of a block no larger |
| BuddyBlocks.MergeTestExact | na/mm/pmm.cc:181-205 | the descriptor test holds if and only if the buddy is a whole free block of that order, although interior descriptors may be out of date |
| BuddyBlocks.RunInOneBlock | na/mm/pmm.cc:147-205 | without free buddies every wholly free aligned run lies in one free block |
| BuddyBlocks.FreeRunIffBlock | na/mm/pmm.cc:147-175 | there is a large enough free block if and only if there is a large enough free aligned run |
| Pmm.Pmm.constructor | na/mm/pmm.cc:382-434 | page descriptors that manage nothing are valid |
| Pmm.Pmm.Feed | na/mm/pmm.cc:435-474 | a gap is cut into blocks that tile it, with no two free buddies |
| Pmm.Pmm.ListAdd | na/mm/pmm.cc:120-129 | puts the block in front of the list and marks its head free with its order |
| Pmm.Pmm.ListDel | na/mm/pmm.cc:134-140 | takes exactly that block off the list |
| Pmm.Pmm.SplitOne | na/mm/pmm.cc:147-175 | one split keeps the tiling: the upper half is free, the lower in hand |
| Pmm.Pmm.BuddyAlloc | na/mm/pmm.cc:147-175 | hands out a block that nobody held and keeps all others; fails if and only if there is no free aligned run of that order |
| Pmm.Pmm.BuddyFree | na/mm/pmm.cc:181-205 | the block is free again, merged as far as it can be; nobody else's block changes |
| Pmm.Pmm.PcpPush | na/mm/pmm.cc:302-328 | puts a page in front of one CPU's cache |
| Pmm.Pmm.PcpPop | na/mm/pmm.cc:260-300 | takes exactly the first page of one CPU's cache |
| Pmm.Pmm.RefillPcp | na/mm/pmm.cc:215-230 | fills the cache of that CPU by a batch, or by less only if no frame is left free; it stays empty exactly when it was and no frame is free |
| Pmm.Pmm.DrainPcp | na/mm/pmm.cc:236-254 | returns half of that CPU's cache, and changes no page in use |
| Pmm.Pmm.AllocPage | na/mm/pmm.cc:260-300 | hands out a page that nobody had, with count 1, the first of the cache if there is one; fails if and only if the cache is empty and no frame is free |
| Pmm.Pmm.FreePage | na/mm/pmm.cc:302-328 | the pages in use are one less, and no other changes; the cache is halved exactly at the high watermark |
| Pmm.Pmm.AllocPages | na/mm/pmm.cc:334-339 | the same for runs, and no other page's count changes; an order that is too large fails |
| Pmm.Pmm.FreePages | na/mm/pmm.cc:341-348 | the same for runs |
| Pmm.Pmm.PageIncref | na/mm/pmm.cc:354-354 | one reference more on that page only |
| Pmm.Pmm.PageDecref | na/mm/pmm.cc:356-366 | one reference less; the block is freed exactly when it was the last, to the cache of this CPU if it is one page and else past every cache |
| Memblock.Memblock.constructor | na/mm/memblock.cc:90-106 | a memory of any size below 2^56, with no reservations |
| Memblock.Memblock.InsertReserved | na/mm/memblock.cc:44-57 | inserts at its sorted place; fails exactly when the array is full; the table stays within physical addresses exactly when the region is |
| Memblock.InsertSorted | na/mm/memblock.cc:44-57 | which keeps the array sorted and adds exactly that region |
| Memblock.Memblock.Reserve | na/mm/memblock.cc:125-130 | reserves the whole pages around the range, likewise |
| Memblock.PagesLeast | na/mm/memblock.cc:125-130 | those are the least whole pages that hold the range |
| Memblock.Memblock.OverlapsReserved | na/mm/memblock.cc:60-71 | the overlap test over the whole array |
| Memblock.OverlapsIffReserved | na/mm/memblock.cc:60-71 | for non-empty ranges it means a common byte |
| Memblock.Memblock.EndCovering | na/mm/memblock.cc:74-84 | the end of a reservation that has the byte, or the byte itself |
| Memblock.Memblock.Alloc | na/mm/memblock.cc:155-182 | in 64 bits: the lowest aligned fit in RAM that meets no reservation, which is then reserved; fails exactly when there is none or the array is full; for a size beyond the end of RAM, what is answered when the end wraps around |
| Memblock.LowRightIff | na/mm/memblock.cc:155-182 | such a size is refused, whatever is reserved, if and only if the first candidate does not wrap into range |
| Memblock.LowWrapExample | na/mm/memblock.cc:155-182 | a request of 2^64 - 2 GB from 128 MB of RAM gets the first byte of RAM |
| Memblock.Memblock.AllocTop | na/mm/memblock.cc:132-153 | in 64 bits: the highest fit up to the last whole page of RAM, failing exactly when there is none or the array is full; for a larger size the highest start that wraps around and passes the tests, if there is one |
| Memblock.WrapExample | na/mm/memblock.cc:132-153 | a request for 4 GB from 128 MB of RAM gets an address far above it |
| Memblock.TooLargeNoFit | na/mm/memblock.cc:132-153 | although nothing fits |
| Memblock.Memblock.ForEachFree | na/mm/memblock.cc:190-217 | the loop reports the gaps, in order |
| Memblock.GapsExactIff | na/mm/memblock.cc:190-217 | the gaps are exactly the unreserved bytes of RAM unless the last byte of RAM is free, no reservation begins right at its end and one begins beyond; then they are not |
| Memblock.OverrunExample | na/mm/memblock.cc:190-217 | a gap that goes beyond RAM |
| Memblock.GapsSpacedIff | na/mm/memblock.cc:190-217 | gaps are in order and not adjacent if and only if no empty reservation splits one |
| Memblock.SplitExample | na/mm/memblock.cc:190-217 | an empty reservation makes two adjacent gaps |
| Memblock.GapsPaged | na/mm/memblock.cc:190-217 | gaps between whole pages are whole pages, but for the end of RAM |
| HandOff.FeedAll | na/mm/pmm.cc:435-474 | the frames that the page allocator manages are exactly RAM minus the reservations, each in one block, and no two free buddies are apart |
| HandOff.RightFramesIff | na/mm/pmm.cc:435-474 | the right frames are fed, for every table of whole-page reservations, if and only if the RAM base is page-aligned or there is no frame |
| HandOff.AlignedFrames | na/mm/pmm.cc:435-474 | with a page-aligned base they are right also with empty reservations |
| HandOff.UnalignedBase | na/mm/pmm.cc:435-474 | with any other base and any frame at all, a reservation of the second page loses the first frame |
| HandOff.SplitBuddies | na/mm/pmm.cc:435-474 | what an empty reservation between two frames leaves: free buddies, and a free run that is in no block |
| Slab.FullPage | na/mm/slab.cc:76-99 | the objects of a size class fill a page and their size is a multiple of 8 |
| Slab.ObjectsApart | na/mm/slab.cc:76-99 | they lie in the page and do not overlap |
| Slab.PopPage | na/mm/slab.cc:134-181 | popping the embedded list takes one free object and keeps list and count complementary to the live objects |
| Slab.PushPage | na/mm/slab.cc:187-228 | so does pushing a live object |
| Slab.LiveApart | na/mm/slab.cc:244-265 | live objects are 8-aligned and pairwise apart |
| Slab.StoreSafe | na/mm/slab.cc:134-181 | a store into a live object does not disturb any free list |
| Slab.StillLive | na/mm/slab.cc:187-228 | a page whose count is not zero has a live object |
| Slab.Heap.constructor | na/mm/slab.cc:310-321 | caches without pages are valid, and nothing is live |
| Slab.Heap.Format | na/mm/slab.cc:76-99 | a fresh page is one list of all its objects |
| Slab.Heap.NewSlab | na/mm/slab.cc:76-99 | a fresh page joins its cache with all objects free, and nothing live changes |
| Slab.Heap.Alloc | na/mm/slab.cc:134-181 | a new live object of the class and no other change of liveness; fails exactly when the active page is used up and there is no page |
| Slab.Heap.Free | na/mm/slab.cc:187-228 | exactly that object is dead; the page is given back if and only if nothing in it lives |
| Slab.Heap.FindCache | na/mm/slab.cc:235-242 | the smallest class that is large enough |
| Slab.OrderBounds | na/mm/slab.cc:244-265 | a large request gets the least order whose block has room for it |
| Slab.Heap.Kmalloc | na/mm/slab.cc:244-265 | null, or a new live object with room for the size; null for size 0 and for want of memory only |
| Slab.Heap.Kfree | na/mm/slab.cc:267-288 | exactly that object is dead; null is ignored |
| Slab.Heap.Store | na/mm/slab.cc:134-181 | a store by the owner of an object keeps the heap valid |
| RunQueue.Ctz32 | na/include/lume/bitops.h:24-33 | the lowest set bit of every non-zero 32-bit word |
| RunQueue.O1RunQueue.constructor | na/kernel/sched_internal.h:14-22 | empty queues |
| RunQueue.O1RunQueue.Enqueue | na/kernel/sched_internal.h:24-37 | at the end of its level; a bit is set if and only if its level is not empty, and the counter is the number of tasks |
| RunQueue.O1RunQueue.Dequeue | na/kernel/sched_internal.h:39-53 | takes exactly that task out, with bitmap and counter in step |
| RunQueue.O1RunQueue.PickNext | na/kernel/sched_internal.h:55-63 | the first task of the most urgent level that is not empty, or none |
| RunQueue.PickedInTurn | na/kernel/sched_internal.h:24-63 | with k tasks ahead of it and nothing more urgent coming, a task is the (k+1)th to be picked, whatever else arrives |
| Scheduler.SleepInv | na/kernel/waitqueue.cc:21-53 | going to sleep keeps the invariant |
| Scheduler.WakeTakeInv | na/kernel/waitqueue.cc:55-97 | so does taking a waiter off its queue |
| Scheduler.WakePutInv | na/kernel/sched_core.cc:202-215 | so does queueing the task that a waker holds |
| Scheduler.SwitchInv | na/kernel/sched_core.cc:232-268 | so does the second half of `schedule`, from the state that its first half leaves |
| Scheduler.StepInv | na/kernel/sched_core.cc:202-268 | every step of every CPU and waker keeps the invariant |
| Scheduler.InvSafe | na/kernel/waitqueue.cc:21-97 | the invariant gives: no task is in two queues or twice in one; each is current, queued on its CPU, waiting, held by a waker, or idle; no task runs on two CPUs |
| Scheduler.RunSafe | na/kernel/waitqueue.cc:21-97 | so over every interleaving of any length |
| Scheduler.BootedInv | na/kernel/sched_core.cc:319-397 | the state that start-up leaves has the invariant |
| Scheduler.WokenRuns | na/kernel/sched_core.cc:202-268 | a runnable task stays queued or held for its CPU until a `schedule` on that CPU runs it |
| Scheduler.StateChange | na/kernel/waitqueue.cc:55-97 | a sleeping task wakes only as the first waiter of its queue; a runnable one leaves that state only to run on its CPU |
| Scheduler.WakeAllOrder | na/kernel/waitqueue.cc:77-97 | `wake_all` empties the queue and appends the waiters of each run queue to it in their order |
| Turns.WaitsInTurn | na/kernel/waitqueue.cc:21-97 | over every interleaving a waiter with k ahead of it moves up one place with each wake of its queue, and the (k+1)th wakes it |
| Turns.RunsInTurn | na/kernel/sched_core.cc:232-268 | while nothing more urgent is runnable on its CPU, a task with k ahead of it on its level is current after the (k+1)th `schedule` there, whatever other CPUs and wakers do |
| Effects.SleepEffect | na/kernel/waitqueue.cc:21-53 | sleeping marks the current task, puts it at the end of that queue and changes no other task, list or CPU |
| Effects.TakeEffect | na/kernel/waitqueue.cc:55-75 | a wake takes the first waiter, makes it runnable in the waker's hand and changes nothing else |
| Effects.PutEffect | na/kernel/sched_core.cc:202-215 | the held task goes to the end of its own level on its own CPU, and nothing else changes |
| Effects.SpawnEffect | na/kernel/sched_core.cc:202-215 | so does a new task |
| Effects.ScheduleFrame | na/kernel/sched_core.cc:232-268 | `schedule` changes no other CPU, no wait queue, no other CPU's run queue and no task but the previous and the next one |
| Effects.SchedulePriority | na/kernel/sched_core.cc:232-268 | what runs afterwards is at least as urgent as all that is queued on the CPU; the idle task runs only if nothing is |
| Effects.SchedulePrevious | na/kernel/sched_core.cc:232-268 | a running task that is not picked goes to the end of its level, one that sleeps stays as it is |
| Effects.PrioKept | na/kernel/sched_core.cc:202-268 | no step changes a task's priority or CPU |
| Effects.SleeperLeaves | na/kernel/waitqueue.cc:21-53 | after sleeping and `schedule` the task is not current, asleep, and last on its queue |
| Effects.WaiterStaysOff | na/kernel/waitqueue.cc:21-97 | over every run, a waiter whose CPU has called `schedule` runs nowhere before the wake that is its turn |
| Effects.SleeperWaits | na/kernel/waitqueue.cc:21-97 | over every run after going to sleep, the task sleeps on that queue, with those ahead of it that were there before, until a wake of the queue reaches it |
| Scheduler.Kernel.constructor | na/kernel/sched_core.cc:319-397 | start-up of any number of CPUs, each with a run queue of its own, leaves a state that has the invariant |
| Scheduler.Kernel.SleepOn | na/kernel/waitqueue.cc:21-53 | is the sleep step |
| Scheduler.Kernel.TakeWaiter | na/kernel/waitqueue.cc:55-75 | is the take step; none exactly when nobody waits |
| Scheduler.Kernel.SchedEnqueue | na/kernel/sched_core.cc:202-215 | is the put step |
| Scheduler.Kernel.WakeOne | na/kernel/waitqueue.cc:55-75 | is a take step and a put step, or nothing exactly when nobody waits |
| Scheduler.Kernel.WakeAll | na/kernel/waitqueue.cc:77-97 | the drain loop; the result is how many waited |
| Scheduler.Kernel.Schedule | na/kernel/sched_core.cc:232-268 | is the reschedule step, keeps the invariant, and keeps every run queue's bitmap exact |
| Scheduler.Kernel.PickNextTask | na/kernel/sched_core.cc:83-92 | through the bitmap of its run queue: the most urgent queued task, else the idle task |
| Scheduler.Kernel.PutRun | na/kernel/sched_class_o1.cc:19-23 | enqueues on the CPU's own run queue, and keeps all queues equal to the lists of the state machine |
| Scheduler.Kernel.TakeRun | na/kernel/sched_class_o1.cc:25-29 | dequeues, likewise |
| Lz4.LengthRead | na/lib/decompress_lz4.cc:6-77 | a 255-run length code reads back, in 32 bits, for every length |
| Lz4.SequenceDecodes | na/lib/decompress_lz4.cc:6-77 | decoding an encoded sequence appends its literals and its match and goes on |
| Lz4.CopyRepeats | na/lib/decompress_lz4.cc:6-77 | a byte-by-byte copy, overlapping or not, rebuilds data that repeats at that distance |
| Lz4.LastDecodes | na/lib/decompress_lz4.cc:6-77 | the last sequence, literals only, decodes |
| Lz4.EmitSequence | na/scripts/pack_image.py:33-104 | each sequence that the packer emits keeps the decoded prefix equal to the input |
| Lz4.Compress | na/scripts/pack_image.py:33-104 | with any in-range hash the output decodes to the input at every sufficient capacity, and is at most 2n + 1 bytes |
| Lz4.GetLength | na/lib/decompress_lz4.cc:6-77 | reads a length code, failing where the input ends |
| Lz4.CopyLiterals | na/lib/decompress_lz4.cc:6-77 | appends the literals to the output |
| Lz4.CopyBack | na/lib/decompress_lz4.cc:6-77 | appends the match to the output, overlapping or not |
| Lz4.GetMatch | na/lib/decompress_lz4.cc:6-77 | reads offset and length and copies; fails exactly when the format or a bound is violated |
| Lz4.Decompress | na/lib/decompress_lz4.cc:6-77 | -1 exactly when the block does not decode; otherwise its length and the decoded bytes |
| Lz4.RoundTrip | na/scripts/pack_image.py:33-104 | unpacking what was packed gives the length and the bytes of the input, for every input below 2^31 bytes |
| Lz4Format.Accepted | na/lib/decompress_lz4.cc:6-77 | every block of the format within capacity decodes to the bytes that it stands for |
| Lz4Format.Parsed | na/lib/decompress_lz4.cc:6-77 | everything that decodes is a block of the format that stands for the result |
| Lz4Format.CopyOnly | na/lib/decompress_lz4.cc:6-77 | the copy of a match is the one continuation that repeats the output at its offset |
| Lz4Format.DecodesIff | na/lib/decompress_lz4.cc:6-77 | the two together: input decodes to a result if and only if some block is written as the input and stands for the result |
| LoadBase.Retires | na/arch/riscv/boot/compressed.cc:217-255 | each pass that collides leaves at least one range behind for good |
| LoadBase.Blocked | na/arch/riscv/boot/compressed.cc:217-255 | a collision rules out every base down to the one below the range |
| LoadBase.Collisions | na/arch/riscv/boot/compressed.cc:217-255 | one pass: whether the candidate is clear, and the next candidate, below which every answer is |
| LoadBase.FindGapFrom | na/arch/riscv/boot/compressed.cc:217-255 | the highest page-aligned clear base in bounds, or 0 exactly when there is none; 64 passes always suffice for 32 ranges; when the first candidate wraps around, the highest base below all ranges |
| LoadBase.WrapRightIff | na/arch/riscv/boot/compressed.cc:217-255 | in that case it is right for every list of ranges if and only if there is no room for the image anyway |
| LoadBase.WrapBaseHighest | na/arch/riscv/boot/compressed.cc:217-255 | the base that is answered then is the highest page-aligned one below all ranges |
| LoadBase.CollidesIffCommon | na/arch/riscv/boot/compressed.cc:217-255 | a range collides if and only if it has a byte of the image |
| LoadBase.ChooseLoadBase | na/arch/riscv/boot/compressed.cc:257-315 | the highest base at or below the random start that is clear of the running image, the payload and the reserved ranges, else the highest in memory, for every draw; the link base exactly when there is none |
| LoadBase.GatheredFree | na/arch/riscv/boot/compressed.cc:257-315 | the ranges that are gathered, at most 32, rule out exactly the bases that meet the image, the payload or a reserved range of those that are kept |
| LoadBase.EveryPageDrawn | na/arch/riscv/boot/compressed.cc:257-315 | every page between the bounds is the start for some draw, and without a seed the start is the top |
| FdtTree.FeedFlat | na/fdt/fdt.cc:360-442 | feeding a flattened node attaches that node to what is open, unless it is too deep |
| FdtTree.UnflattenInverts | na/fdt/fdt.cc:360-442 | the tokens of a tree, with any NOPs, build that tree if and only if it has at most 16 levels |
| Fdt.LexEncode | na/fdt/fdt.cc:360-442 | a written token reads back, with its padding and its name from the strings block |
| Fdt.LexAllEncoded | na/fdt/fdt.cc:360-442 | so does a whole structure block |
| Fdt.TokenBytes | na/fdt/fdt.cc:360-442 | the bytes of each kind of token, with the token numbers of the format |
| Fdt.LexKinds | na/fdt/fdt.cc:360-442 | the token word 9 ends the block, and exactly the words other than 1, 2, 3, 4 and 9 are refused |
| FdtManager.OpenStep | na/fdt/device_node.cc:62-70 | adding a child node in place is opening a node of the tree being built |
| FdtManager.ItemStep | na/fdt/device_node.cc:72-79 | adding a property in place is adding it to the innermost open node |
| FdtManager.CloseStep | na/fdt/fdt.cc:360-442 | popping the stack is closing that node |
| FdtManager.FdtManager.Unflatten | na/fdt/fdt.cc:360-442 | the loop over bytes, stack and linked nodes builds what the tokens build; it panics exactly on an unknown token or too deep a tree |
| FdtManager.BlockBuilds | na/fdt/fdt.cc:360-442 | the block of a tree lexes to its tokens and builds it |
| FdtManager.UnflattenTree | na/fdt/fdt.cc:360-442 | from the bytes of a tree's block the nodes are that tree, with children and properties in order, if and only if it has at most 16 levels |
| FdtScan.ScanIsSearch | na/fdt/fdt.cc:145-232 | scanning the tokens of a tree finds what a search for the first memory child with `reg` finds, for trees of any depth, values that are too short included |
| FdtScan.EarlyScanMem | na/fdt/fdt.cc:145-232 | the loop over bytes with its per-level arrays is that scan; a value shorter than its cells is read on into what follows |
| FdtScan.EarlyScanTree | na/fdt/fdt.cc:145-232 | from the bytes of a tree's block, it returns what the search of the tree returns: base and size, nothing, or, for a value that is too short, something |
| FdtScan.ReadsWritten | na/fdt/fdt.cc:145-232 | a number written as big-endian cells is read back |
| FdtScan.RegReads | na/fdt/fdt.cc:145-232 | a `reg` value of address and size cells reads as that base and size |
| FdtScan.SearchFinds | na/fdt/fdt.cc:145-232 | in a tree whose first memory child has such a `reg`, the search finds its base and size, with the root's cell counts or the defaults 2 and 1 |
| FdtScan.EarlyScanFinds | na/fdt/fdt.cc:145-232 | so the scan of that tree's bytes returns exactly this base and size |
| FdtScan.Spelled | na/fdt/fdt.cc:145-232 | the names that are looked for |
| Extable.RewrittenIff | na/arch/riscv/trap/extable.cc:10-20 | an entry moved to another place means the same if and only if its new offsets fit in 32 bits |
| Extable.Layout | na/arch/riscv/trap/extable.cc:10-20 | an entry is eight bytes, two offsets from their own addresses |
| Extable.Table.Swap | na/arch/riscv/trap/extable.cc:10-20 | the absolute pairs change places, although the stored offsets change, if and only if each reaches the other's place |
| Extable.Table.Partition | na/arch/riscv/trap/extable.cc:22-58 | rearranges the part around a pivot, so that both recursive calls are smaller |
| Extable.Table.Sort | na/arch/riscv/trap/extable.cc:22-58 | the part is sorted by absolute address and rearranged, and the rest unchanged |
| Extable.Table.Init | na/arch/riscv/trap/extable.cc:60-64 | the table is sorted and has the same multiset of absolute pairs |
| Extable.Table.Search | na/arch/riscv/trap/extable.cc:66-92 | finds a fixup for the address, or 0 exactly when no entry has it |
| Extable.FoundIsLinear | na/arch/riscv/trap/extable.cc:66-92 | with distinct keys that is what a linear search of any rearrangement finds |
| Extable.InitAndSearch | na/arch/riscv/trap/extable.cc:60-92 | after `extable_init`, searching gives the result of a linear search of the table before it |
| FirstFit.FindFreeVa | na/mm/vma.cc:393-425 | the loop with 64-bit rounding is the search function, for every length and alignment |
| FirstFit.FindFreeRight | na/mm/vma.cc:393-425 | the least aligned address that fits, or 0 if and only if there is none, for every list of areas |
| FirstFit.TooLong | na/mm/vma.cc:393-425 | with no areas, a length above the limit gets an address at which it does not fit, unless the alignment is so large that rounding wraps |
| FirstFit.TooLongRight | na/mm/vma.cc:393-425 | with such an alignment the answer is right |
| FirstFit.TooCoarse | na/mm/vma.cc:393-425 | for every alignment that may wrap there is a list of areas that is answered wrongly |
| FirstFit.AlwaysRightIff | na/mm/vma.cc:393-425 | for all lengths and alignments: exactly when the answer is right for every list of areas |
| FirstFit.CommonAlignOk | na/mm/vma.cc:54-60 | every alignment up to 2^64 minus the limit is safe |

## Left out

- The `src/` tree, which the repository calls deprecated.
- Drivers, interrupts, SBI, CSR access, TLB flushes and assembly; a context switch is a change of `current`.
- Spinlock atomics and memory ordering; regions that hold a lock are single steps.
- `task_wait`, task exit and destruction; tasks do not end in the model.
- Time slices, `sched_tick` and `sched_yield`: they only decide when `schedule` is called, and the model allows it at any time.
- `vmm_init`, kernel mappings and 2 MB leaves.
- KASLR layout, PRNG, PID bitmap, syscall and interrupt tables, logging, boot parameters, relocation.
- `rb_replace_node`, the postorder walk, cached trees and augmented callbacks.
- `early_scan_uart` and `early_scan_kaslr`, `find_compatible` and path lookup, which have the same shape or are easier.
- The word that packs parent and colour of a node is two fields of the model.
- Intrusive lists (free lists, run queues, wait queues, children and properties) are sequences; the node links inside them are not modelled.
- The methods of `Vmm` do not call those of `AreaLoops` and `PageLoops`: they state the same loops on the sequence, the map, the counts and the pool that those modules prove the tree, the tables and the allocator to be. The contents of frames are in `Vmm` only, and the fork loop over pages is proved on tables one page at a time.
- The wrap-around of 32-bit reference counts.
- Memblock.Memblock.Reserve: a region beyond 2^56 ends what is promised about the table, because the code's ends may wrap around then.
- A store goes through an entry that has W; hardware may also ask for R, since section 4.3.1 of the RISC-V Privileged Architecture manual reserves W without R.
- Vmm.Vmm.HandlePageFault: a fresh page has arbitrary contents, because nothing clears it.
- Page-table frames come from a pool of their own; only whether one can be had is a parameter.
- HandOff.FeedAll: needs a page-aligned base, whole-page reservations, gaps that end with RAM and no empty reservation inside free memory; `HandOff.RightFramesIff`, `Memblock.GapsExactIff` and `Memblock.GapsSpacedIff` show that less is not enough.
- Slab.Heap.Free: models one CPU; the code clears only its own active page.
- Lz4.Compress: how small the output is, beyond 2n + 1 bytes, because the packer promises no ratio.
- FdtManager.FdtManager.Unflatten: blocks that end inside a token are excluded, because the code reads beyond them.
- FdtScan.EarlyScanMem: blocks that end inside a token are excluded, and memory beyond the bytes given reads as 0.
