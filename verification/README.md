# Pintos kernel model

A Dafny model of the algorithms of the Pintos teaching kernel under `pintos/src`, with proofs of what they promise.
Code that works on memory in place is a class or a method on arrays, proved against functions on values; protocols are
transition systems whose invariants are proved for every run. `dafny verify dfyconfig.toml` checks the project.

- Lists, hash table, sorting: `Sequences`, `Order`, `KernelList` (intrusive doubly linked lists and the natural merge
  sort that splices them), `BitTricks`, `HashTable`, `HeapSort`.
- Threads: `Semaphore` (every interleaving of the sections that run with interrupts off), `Donation` and `Kernel`
  (locks and priority donation), `Scheduler`, `Mlfqs`; what each step does to whom is said in `DonationSteps`,
  `SchedulerSteps` and `MlfqsSteps`.
- Virtual memory: `Bitmap`, `Swap`, `Vm` (the page state machine), `VmSteps` (what each step does), `Vpage` (the code
  that makes the steps).
- Files: `BufferCache`, `InodeLayout`, `Store`, `Inode`, `Path`.
- Allocator, arithmetic, archives: `Heap`, `Malloc`, `Arithmetic`, `Stdio`, `Ustar`.

Machine integers are written with their range, and wrap-around is written out where the source can wrap around. Calls
that may fail for want of memory, the order in which a hash table is scanned for a victim, the time and the disk's
contents are parameters or arbitrary choices.

## Where the code does not keep its promise

Each of these has a lemma with an input that shows it, or an exact condition proved for all inputs.

- Donation: a thread that raises itself above one of its donors can sink below its own priority later
  (`Donation.LawFails`); a step loses the law exactly by `Donation.Sinks` (`Donation.LawLostExactlyBySinking`).
- Virtual memory: a frame is not cleared when its page is evicted; a lazy page with a short file shows the old bytes
  (`Vm.StaleBytes`). A fault keeps the contents exactly under `Vm.FaultKeeps` (`Vm.FaultContents`).
- Inodes: a large file that grows past 8 MiB makes the code write behind the first-level array
  (`Store.PastFirstLevel`, exactly when by `Store.FirstLevelInside`); inode_create_huge takes a failed allocation of
  the first-level array for success (`complete` in `Store.Store.CreateHuge`).
- malloc: a request above 0xFFFFFFF4 bytes gets a block of 4084 (`Malloc.LargestRequest`, exactly when by
  `Malloc.BigEnough`), and realloc may then copy past its end (`overrun` in `Malloc.Allocator.Realloc`).
- Paths: a relative path that goes two steps up loses them (`Path.TooFewUps`, exactly when by `Path.RelativeWalk`).
- Archives: a header made with a negative size does not parse (`Ustar.RoundTrip`).
- Arithmetic: dividing the least number by -1 (`Arithmetic.Sdiv64`), and remainders that do not fit in 32 bits
  (`Arithmetic.Umod64`, `Arithmetic.Smod64`).
- Comments that the code does not follow: bitmap_scan_and_flip for no bits (`Bitmap.EmptySearchReturnsStart`), and the
  greatest block of a descriptor in malloc, 1024 bytes and not 2 kB (`Malloc.Allocator.constructor`).

## Model

| member | source | states |
|---|---|---|
| `KernelList.ListInsert` | pintos/src/lib/kernel/list.c:168-179 | linking one element in front of another turns the chain of nodes into the chain with that node added there |
| `KernelList.ListRemove` | pintos/src/lib/kernel/list.c:248-256 | unlinking takes exactly that node out of the chain and returns its successor |
| `KernelList.ListSplice` | pintos/src/lib/kernel/list.c:183-204 | moving a range of nodes in front of an earlier one: the chain becomes the chain with that range moved, same nodes, links well-formed both ways |
| `KernelList.FindEndOfRun` | pintos/src/lib/kernel/list.c:357-372 | the end of the longest nondecreasing run, which is not empty |
| `KernelList.InplaceMerge` | pintos/src/lib/kernel/list.c:379-394 | two adjacent sorted runs become one; the same nodes, and only pairs that `less` orders strictly changed their order, so the merge is stable |
| `KernelList.List.Pass` | pintos/src/lib/kernel/list.c:405-440 | one pass of the sort: a stable rearrangement with fewer descents than output runs, and at most one output run for two input runs, rounded up, which is why the sort ends |
| `KernelList.List.Sort` | pintos/src/lib/kernel/list.c:400-440 | for every strict weak order the list ends up well-formed, with exactly the same nodes, sorted, and no two equivalent nodes exchanged |
| `KernelList.List.InsertOrdered` | pintos/src/lib/kernel/list.c:442-459 | the new node goes in front of the first that is greater, and nothing else moves |
| `KernelList.InsertOrderedIsSort` | pintos/src/lib/kernel/list.c:442-459 | in a sorted list that place keeps it sorted, behind all equivalent nodes, as a stable sort would |
| `KernelList.List.Max` | pintos/src/lib/kernel/list.c:487-506 | the first of the greatest elements, or the tail of an empty list |
| `KernelList.List.Reverse` | pintos/src/lib/kernel/list.c:325-336 | swapping the links of every node in place gives a well-formed list of the nodes in reverse order |
| `KernelList.List.Remove` | pintos/src/lib/kernel/list.c:248-256 | the list without that node, and the node behind it |
| `KernelList.List.PopFront` | pintos/src/lib/kernel/list.c:258-265 | the first node, and the list without it |
| `KernelList.List.PushFront` | pintos/src/lib/kernel/list.c:207-212 | the node in front of all others |
| `KernelList.List.PushBack` | pintos/src/lib/kernel/list.c:215-220 | the node behind all others |
| `Order.StableSortUnique` | pintos/src/lib/kernel/list.c:398-404 | for the specification of list_sort: any two sorted stable rearrangements of a list are equal, so the contract of `List.Sort` leaves one result only |
| `KernelList.TwoRunsDescents` | pintos/src/lib/kernel/list.c:411-437 | the measure of the sort: two adjacent runs have exactly one descent between them, which the merge removes |
| `Order.MoveLeftStable` | pintos/src/lib/kernel/list.c:388-393 | moving a node of the right run in front of nodes that are all strictly greater is a stable rearrangement: the step of the merge |
| `BitTricks.PowerTest` | pintos/src/lib/kernel/hash.c:329-340 | is_power_of_2, a test with `x & (x - 1)`, accepts exactly the powers of two |
| `BitTricks.TurnOffKeepsTop` | pintos/src/lib/kernel/hash.c:329-333 | turning off the least 1-bit of a number that is no power of two keeps its greatest power of two |
| `BitTricks.MaskIsMod` | pintos/src/lib/kernel/hash.c:305-310 | `h & (n - 1)` is `h mod n` for a power of two n: every element has one bucket, inside the array |
| `HashTable.HashTable.IdealCount` | pintos/src/lib/kernel/hash.c:360-374 | the loop that turns off bits ends at the greatest power of two not above the wanted count: at least 4, and more than a quarter of the number of elements |
| `HashTable.HashTable.Rehash` | pintos/src/lib/kernel/hash.c:351-414 | moving every element to new buckets keeps the map; with memory available the number of buckets is the ideal one afterwards, and without it the old ones stay |
| `HashTable.HashTable.Insert` | pintos/src/lib/kernel/hash.c:98-110 | as a map: the new element is added only if none is equal to it, and the old one is returned otherwise; with memory the buckets are resized |
| `HashTable.HashTable.Replace` | pintos/src/lib/kernel/hash.c:114-127 | as a map: the new element takes the place of its equal, which is returned |
| `HashTable.HashTable.Find` | pintos/src/lib/kernel/hash.c:131-135 | as a map: the element equal to the argument, when there is one |
| `HashTable.HashTable.Delete` | pintos/src/lib/kernel/hash.c:144-155 | as a map: the equal element is removed and returned |
| `HashTable.HashTable.Iterate` | pintos/src/lib/kernel/hash.c:199-235 | first and next visit every element of the table exactly once |
| `HashTable.HashTable.IterationVisits` | pintos/src/lib/kernel/hash.c:199-235 | the order of the visit, bucket by bucket, has each element of the map once and nothing else |
| `HashTable.HashIterator.Next` | pintos/src/lib/kernel/hash.c:218-235 | the cursor gives the first of the elements that remain and drops it, skipping empty buckets |
| `HashTable.HashTable.FindElem` | pintos/src/lib/kernel/hash.c:314-325 | the place in the bucket of an element that neither is less than the argument nor the other way round |
| `Bitmap.Bitmap.Set` | pintos/src/lib/kernel/bitmap.c:144-179 | in 32-bit words: only the bit of that index changes |
| `Bitmap.Bitmap.Test` | pintos/src/lib/kernel/bitmap.c:197-203 | the bit of that index |
| `Bitmap.Bitmap.SetMultiple` | pintos/src/lib/kernel/bitmap.c:217-226 | all bits of the range get the value, no other bit changes |
| `Bitmap.Bitmap.CountBits` | pintos/src/lib/kernel/bitmap.c:232-246 | the number of bits of the range that have the value |
| `Bitmap.Bitmap.Contains` | pintos/src/lib/kernel/bitmap.c:250-263 | whether some bit of the range has the value |
| `Bitmap.Bitmap.ScanBits` | pintos/src/lib/kernel/bitmap.c:295-308 | first fit: the first range of that many equal bits, and nothing only when there is none |
| `Bitmap.Bitmap.ScanAndFlip` | pintos/src/lib/kernel/bitmap.c:319-325 | the same, and the range found is flipped; nothing changes when there is none |
| `Bitmap.FirstFitUnique` | pintos/src/lib/kernel/bitmap.c:290-308 | first fit determines the result |
| `Bitmap.EmptySearchReturnsStart` | pintos/src/lib/kernel/bitmap.c:310-325 | a search for no bits finds the start; the comment above bitmap_scan_and_flip says 0 |
| `Swap.SwapOutStores` | pintos/src/vm/swap.c:34-52 | swap never fragments: the space behind the second NOT_REACHED is never reached; swap is full exactly when all slots are in use, and otherwise the page goes to a free slot and no other page changes, for any size of the device |
| `Swap.FullIff` | pintos/src/vm/swap.c:36-45 | the test on the number of free sectors fails exactly when every whole slot is in use |
| `Swap.SwapFreeRemoves` | pintos/src/vm/swap.c:54-57 | freeing a slot removes that page and keeps the slots aligned |
| `Swap.WritePages` | pintos/src/vm/swap.c:46-51 | a page stored in a free slot is added to the pages, and no other page changes |
| `Swap.SwapDevice.Out` | pintos/src/vm/swap.c:34-52 | the sector loop and the bitmap make the step that SwapOut says |
| `Swap.SwapDevice.In` | pintos/src/vm/swap.c:23-32 | the page stored in the slot comes out, and the slot is freed |
| `Swap.SwapDevice.Free` | pintos/src/vm/swap.c:54-57 | the slot is free, the sectors are as they were |
| `Vm.StepInv` | pintos/src/vm/vpage.c:46-149 | after every fault, allocation, release, change of protection, store and file write: pages in memory have frames of their own, mapped in their page directories and no others are; swapped pages have slots of their own, whose bits are exactly those set |
| `Vm.GetFrameInv` | pintos/src/vm/vpage.c:46-71 | obtaining a frame, with or without eviction, changes no page but the victim and no contents at all, and fails only without a free frame and a free slot |
| `Vm.OtherContents` | pintos/src/vm/vpage.c:46-226 | a step keeps the contents of every page that it does not concern, through any number of evictions |
| `Vm.ContentsSurvive` | pintos/src/vm/vpage.c:46-226 | along any run of steps that do not concern a page its contents stay the same |
| `Vm.PanicsExactly` | pintos/src/vm/vpage.c:46-71 | the kernel panics exactly when a frame is needed, no frame is free, and there is nothing to evict or swap is full |
| `Vm.FaultContents` | pintos/src/vm/vpage.c:84-119 | a fault brings the page in and keeps its contents exactly when the bytes of the frame that the file does not reach are zero |
| `Vm.FaultKeepsWhen` | pintos/src/vm/vpage.c:84-104 | they are when the page is swapped or zero-filled, when the file holds the whole range, and when a frame was free |
| `Vm.InMemAllocateContents` | pintos/src/vm/vpage.c:195-226 | a page allocated in memory is all zeros exactly when the frame it gets is |
| `Vm.StoreContents` | pintos/src/vm/vpage.c:46-119 | a store changes that byte of that page |
| `Vm.StaleBytes` | pintos/src/vm/vpage.c:84-104 | the code fails here: a frame taken from an evicted page still has its bytes, and a lazily loaded page with a short file shows them |
| `Vm.OneFrameReached` | pintos/src/vm/vpage.c:151-226 | the state of that failure is reached from the initial one |
| `VmSteps.VictimIsOldest` | pintos/src/vm/vpage.c:46-71 | the page that the scan chooses was brought in longest ago of all in memory, and is the first of those in the order of the iteration |
| `VmSteps.GetFrameTakes` | pintos/src/vm/vpage.c:46-71 | while there is a free frame the first one is taken and no page moves; otherwise exactly that oldest page moves to swap, and its frame is taken |
| `VmSteps.FaultOutcome` | pintos/src/vm/vpage.c:84-119 | a page fault brings the page in at the present time, with the protection that it had, in its record and in the page table; only the oldest page may have moved |
| `VmSteps.FaultKills` | pintos/src/vm/vpage.c:331-373 | a fault on an unknown page, or one in memory, changes nothing |
| `VmSteps.InMemAllocateOutcome` | pintos/src/vm/vpage.c:195-226 | a page allocated in memory is mapped with the protection asked for, in the record and in the page table; only the oldest page may have moved |
| `VmSteps.LazyAllocateOutcome` | pintos/src/vm/vpage.c:157-193 | a new lazy page has the protection asked for and stands for its part of the file, then zeros; a taken address changes nothing |
| `VmSteps.ReleaseOutcome` | pintos/src/vm/vpage.c:121-149 | the page is gone from the table and the page directory, and every other page is as it was |
| `VmSteps.SetWritableOutcome` | pintos/src/vm/vpage.c:273-294 | that page gets that protection and stays where it is; nothing else changes |
| `VmSteps.ProtectionKept` | pintos/src/vm/vpage.c:84-294 | no step but vpage_info_set_writable on that page changes the protection of a page that stays alive |
| `VmSteps.ProtectionInRuns` | pintos/src/vm/vpage.c:84-294 | over every run of faults, evictions and allocations a page that is not released has the protection set last, its page-table entry says the same, and the program can store to it only if it is writable |
| `Vm.LoadIs` | pintos/src/vm/vpage.c:84-104 | byte by byte what a frame holds after it was filled: the file, zeros from the length on, and between the end of the file and the length what it held before |
| `Vpage.Vpages.FindVictim` | pintos/src/vm/vpage.c:46-71 | the first page in memory of the least last_use, in the order of the iteration |
| `Vpage.Vpages.InMemToSwap` | pintos/src/vm/vpage.c:73-82 | the step from memory to swap |
| `Vpage.Vpages.TakeFrame` | pintos/src/vm/vpage.c:46-71 | the page pool first, then eviction |
| `Vpage.Vpages.LazyToInMem` | pintos/src/vm/vpage.c:84-104 | makes the step of a fault on a lazy page, with the file read and the padding as in the code; what that step does is VmSteps.FaultOutcome and Vm.FaultContents |
| `Vpage.Vpages.SwapToInMem` | pintos/src/vm/vpage.c:106-119 | makes the step of a fault on a swapped page; what that step does is VmSteps.FaultOutcome and Vm.FaultContents |
| `Vpage.Vpages.HandleUserFault` | pintos/src/vm/vpage.c:331-373 | makes the page present and mapped exactly when it is known and not already in memory; the protection is that of VmSteps.FaultOutcome |
| `Vpage.Vpages.LazyAllocate` | pintos/src/vm/vpage.c:157-193 | a new lazy page; nothing changes when the address is taken |
| `Vpage.Vpages.InMemAllocate` | pintos/src/vm/vpage.c:195-226 | makes the step of a new page in memory, which VmSteps.InMemAllocateOutcome describes |
| `Vpage.Vpages.Release` | pintos/src/vm/vpage.c:121-149 | the page is gone, and its frame or slot free |
| `Vpage.Vpages.ReleaseAll` | pintos/src/vm/vpage.c:296-310 | exactly the pages of that process are gone, and all other pages keep their contents |
| `Vpage.Vpages.SetWritable` | pintos/src/vm/vpage.c:273-294 | the protection changes in the table and, for a page in memory, in the page directory |
| `BufferCache.BufferCache.Lookup` | pintos/src/filesys/bcache.c:49-80 | the entry of the sector when there is one, or else the last unused one, or else the first of those used least recently |
| `BufferCache.FoundUnique` | pintos/src/filesys/bcache.c:49-80 | these conditions leave one entry |
| `BufferCache.OccupyKeepsView` | pintos/src/filesys/bcache.c:107-122 | taking an entry over for another sector, written back first if it was in use, leaves the contents of the disk as the cache shows it |
| `BufferCache.BufferCache.Occupy` | pintos/src/filesys/bcache.c:107-122 | only the sector of the entry is written back |
| `BufferCache.BufferCache.Bring` | pintos/src/filesys/bcache.c:49-98 | the sector is in the entry afterwards, which is the one used last; the view is unchanged, and so is the device if the sector was cached |
| `BufferCache.BufferCache.Read` | pintos/src/filesys/bcache.c:49-98 | a read returns the view of the sector and changes no view; no other cached sector was used later |
| `BufferCache.BufferCache.WriteAt` | pintos/src/filesys/bcache.c:140-182 | a partial write changes exactly those bytes of the view of that sector, and not the device if the sector was cached; no other cached sector was used later |
| `BufferCache.BufferCache.Sync` | pintos/src/filesys/bcache.c:194-200 | afterwards the device is the view |
| `InodeLayout.InodeRoundTrip` | pintos/src/filesys/inode.c:15-30 | an inode read back from its sector is the inode that was written |
| `InodeLayout.TableRoundTrip` | pintos/src/filesys/inode.c:82-116 | a sector array read back is the array that was written |
| `InodeLayout.DataWrite` | pintos/src/filesys/inode.c:782-832 | writing part of a data sector overlays those bytes of the file and keeps its layout |
| `InodeLayout.OtherFile` | pintos/src/filesys/inode.c:143-303 | no operation on one file changes the contents or the sectors of another |
| `InodeLayout.Grown` | pintos/src/filesys/inode.c:162-303 | new zeroed sectors behind the old ones extend the file by zeros and change no byte of it |
| `Store.Store.CreateSmall` | pintos/src/filesys/inode.c:430-460 | the inode describes a file of that many zeros over sectors that were free, and no other sector is allocated; it succeeds exactly when there are enough free sectors in a row, and on failure nothing that was allocated changes |
| `Store.Store.CreateLarge` | pintos/src/filesys/inode.c:462-510 | the same with one sector array; it succeeds exactly when one free sector more than the file has is left |
| `Store.Store.CreateHuge` | pintos/src/filesys/inode.c:512-579 | the same with two levels of arrays, exactly when the free sectors are enough for the file and all arrays; `complete` is false exactly for an unset start sector or an array that is too short |
| `Store.Store.Create` | pintos/src/filesys/inode.c:597-617 | the same by size, exactly when the free sectors are enough for that layout, and failure beyond the greatest size |
| `Store.Store.FillArray` | pintos/src/filesys/inode.c:220-235 | each entry of the range gets a free sector of its own, zeroed, exactly when there are as many free sectors as entries |
| `Store.FirstLevelInside` | pintos/src/filesys/inode.c:530-566 | for any number of sectors: the entries that inode_create_huge writes are inside the first-level array exactly when there are at most HUGE_SECTORS |
| `Store.PastFirstLevel` | pintos/src/filesys/inode.c:530-566 | the code fails here: a file of 8 MiB and a byte has an entry behind the last of the first-level array |
| `Inode.Inode.ByteToSector` | pintos/src/filesys/inode.c:74-117 | the sector that holds that byte, for the three layouts; none exactly from the length on |
| `Inode.Inode.ReadAt` | pintos/src/filesys/inode.c:724-780 | the bytes of the file from the offset on, as many as there are |
| `Inode.Inode.GrowLarge` | pintos/src/filesys/inode.c:178-246 | a large file grows in place by zeros exactly when there are free sectors for what it lacks |
| `Inode.Inode.GrowHuge` | pintos/src/filesys/inode.c:247-303 | a huge file grows in place by zeros within its last second-level array, exactly when there are free sectors for what it lacks |
| `Inode.Inode.ExpandSectors` | pintos/src/filesys/inode.c:143-372 | by type: growth in place, or a new file of zeros over the same inode, exactly when the free sectors are enough for it; every sector newly allocated belongs to the file; when a new file cannot be made the old one is as it was |
| `Inode.Inode.Expand` | pintos/src/filesys/inode.c:374-423 | the file is extended by zeros, also when it changes from small to large or huge or from large to huge |
| `Inode.Inode.WriteAt` | pintos/src/filesys/inode.c:782-832 | all bytes are written, the gap is zeros, and no other byte, no other file and no attribute of this one changes, exactly when writing is allowed and the file need not grow or the free sectors are enough for it to grow; every sector newly allocated then belongs to the file; otherwise nothing is written |
| `Inode.Inode.WriteAll` | pintos/src/filesys/inode.c:782-832 | any run of writes to an empty file whose growths succeed leaves the file that the writes say; the first of them is made exactly when the free sectors are enough |
| `Inode.Inode.ReadAfterAll` | pintos/src/filesys/inode.c:724-832 | after any such run a read gives at each place the byte written last, zero where none was, and nothing past the farthest end |
| `Inode.ReadAfterWrites` | pintos/src/filesys/inode.c:724-832 | the same as a fact about the sequence of bytes |
| `Path.Strtok` | pintos/src/lib/string.c:234-275 | the next name between slashes, and none exactly when only slashes are left |
| `Path.PathCanonicalize` | pintos/src/filesys/path.c:86-184 | the loop over the names computes the canonical path |
| `Path.AbsoluteTokens` | pintos/src/filesys/path.c:86-152 | the tokens of an absolute path are never empty, "." or "..", and have no slash |
| `Path.RelativeTokens` | pintos/src/filesys/path.c:114-137 | those of a relative path neither, but for at most one "..", which comes first |
| `Path.RoundTrip` | pintos/src/filesys/path.c:53-84 | what canon_path_serialize writes is made canonical to the same tokens, without the outer ones |
| `Path.Recanonicalized` | pintos/src/filesys/path.c:53-152 | to write out a canonical absolute path other than the root and to read it again changes nothing |
| `Path.CanonPathSerialize` | pintos/src/filesys/path.c:53-84 | the buffer holds that text and a null character, and the length it reports counts the null character |
| `Path.AbsoluteWalk` | pintos/src/filesys/path.c:86-152 | in every directory tree in which the raw path leads somewhere, the canonical path leads to the same place |
| `Path.RelativeWalk` | pintos/src/filesys/path.c:117-137 | for a relative path that holds in every tree and from every start exactly when the path amounts to at most one step up |
| `Path.RelativeExactly` | pintos/src/filesys/path.c:117-137 | the tokens of a relative path are the steps up and names it amounts to exactly when there is at most one step up: a second ".." takes the first one back |
| `Path.TooFewUps` | pintos/src/filesys/path.c:117-137 | the code fails here: every relative path that goes two steps up leads elsewhere than its canonical form, in some tree |
| `Arithmetic.Nlz` | pintos/src/lib/arithmetic.c:38-71 | the number of leading zeros: shifted by it, the number has its highest bit set |
| `Arithmetic.Udiv64` | pintos/src/lib/arithmetic.c:73-128 | the floor of n / d for all 64-bit n and all d but 0; both uses of divl have a quotient below 2^32, so neither traps |
| `Arithmetic.QuotientCorrection` | pintos/src/lib/arithmetic.c:111-127 | the estimate from the shifted operands is the quotient or one more, so the last comparison gives the quotient |
| `Arithmetic.Umod64` | pintos/src/lib/arithmetic.c:130-135 | the low 32 bits of n mod d; exactly n mod d just when that fits, always so for d up to 2^32 |
| `Arithmetic.Sdiv64` | pintos/src/lib/arithmetic.c:137-146 | truncation toward zero (section 6.5.5 of ISO C99) exactly when the operands are not the least number and -1; then the result wraps around to the least number |
| `Arithmetic.Smod64` | pintos/src/lib/arithmetic.c:148-154 | the remainder of truncating division as a 32-bit int; exact just when it fits |
| `HeapSort.DoSwap` | pintos/src/lib/stdlib.c:66-80 | byte by byte, exactly these two elements change places |
| `HeapSort.Heapify` | pintos/src/lib/stdlib.c:93-122 | restores the heap from any element whose subtrees are heaps; the elements are a permutation and those behind the heap stay |
| `HeapSort.FloatDown` | pintos/src/lib/stdlib.c:103-121 | the swap with the greatest of the family moves the only fault of the heap one level down |
| `HeapSort.RootIsGreatest` | pintos/src/lib/stdlib.c:144-151 | no element of a heap is greater than its root |
| `HeapSort.TailGrows` | pintos/src/lib/stdlib.c:144-151 | a round moves the root in front of a sorted tail that no element of the heap exceeds |
| `HeapSort.Sort` | pintos/src/lib/stdlib.c:124-152 | for every total preorder the elements become a sorted permutation and no byte behind them changes (section 7.20.5.2 of ISO C99) |
| `HeapSort.BinarySearch` | pintos/src/lib/stdlib.c:171-207 | in a sorted array: a match when there is one, and none only when there is none (section 7.20.5.1 of ISO C99) |
| `Stdio.Output.Put` | pintos/src/lib/stdio.c:44-52 | characters beyond the limit are counted but not stored |
| `Stdio.PutDigits` | pintos/src/lib/stdio.c:505-517 | the digits of the number in reverse; for every 64-bit number they fit in the buffer |
| `Stdio.FormatInteger` | pintos/src/lib/stdio.c:465-548 | padding, sign of the flags, zeros up to the precision and digits, in this order, for unsigned conversions |
| `Stdio.FormattedIs` | pintos/src/lib/stdio.c:465-548 | the text is as long as the width and the digits need; the digits denote the number, are as many as the precision asks for or have no needless zero in front, and stand at the end that the flag says, with spaces or zeros in the rest |
| `Stdio.Snprintf` | pintos/src/lib/stdio.c:19-42 | at most size - 1 characters of the text and a null character; the rest of the buffer is unchanged, and the length is that of the whole text |
| `Stdio.DigitsDenote` | pintos/src/lib/stdio.c:505-517 | the digits printed denote the number, in every base whose digits differ |
| `Stdio.OctalLength` | pintos/src/lib/stdio.c:505-517 | a number has at most n octal digits exactly when it is below 8^n |
| `Stdio.OctalDenotes` | pintos/src/lib/stdio.c:465-548 | zero-padded octal of width w has exactly w digits, which denote the number, when it is below 8^w |
| `Ustar.StripAntisocialPrefixes` | pintos/src/lib/ustar.c:65-73 | the loop computes the stripped name |
| `Ustar.StripIsSafe` | pintos/src/lib/ustar.c:56-73 | a stripped name is not empty or "..", does not begin with "/", "./" or "../", and stripping it again changes nothing |
| `Ustar.StripIsSuffix` | pintos/src/lib/ustar.c:56-73 | it is an end of the name, or "." |
| `Ustar.StripDrops` | pintos/src/lib/ustar.c:56-73 | what is dropped in front consists of "/", "./" and "../" only, and what is left does not begin with one of them: stripping drops what it must and no more |
| `Ustar.ParseOctalField` | pintos/src/lib/ustar.c:119-161 | succeeds exactly on digits, at least one, ended by a space or a null byte, whose value an unsigned long holds, and gives that value |
| `Ustar.OctalRoundTrip` | pintos/src/lib/ustar.c:119-161 | zero-padded octal and a null byte are read back as the number |
| `Ustar.CalculateChksum` | pintos/src/lib/ustar.c:36-53 | the sum of the bytes with the checksum field as spaces |
| `Ustar.ChecksumIs` | pintos/src/lib/ustar.c:36-53 | that is the sum of the bytes before and behind the field, and 8 times 32 |
| `Ustar.ChecksumHolds` | pintos/src/lib/ustar.c:36-113 | the checksum that a header holds is the one that it has |
| `Ustar.MakeHeader` | pintos/src/lib/ustar.c:75-117 | fills the buffer field by field with the header; fails, with the buffer as it was, exactly when the stripped name is longer than 99 bytes |
| `Ustar.MadeFields` | pintos/src/lib/ustar.c:82-117 | each field read back as the format says: the stripped name, mode 0644 or 0755, owner and group 0 named root, size, time, checksum, type, magic and version, and null bytes elsewhere |
| `Ustar.ParseHeader` | pintos/src/lib/ustar.c:175-227 | the checks in their order, with the error of the first that fails |
| `Ustar.AcceptsExactly` | pintos/src/lib/ustar.c:194-226 | a header that is not all zeros is parsed exactly when it passes all eight checks |
| `Ustar.FirstFailing` | pintos/src/lib/ustar.c:194-226 | otherwise the error is that of the first check that it does not pass |
| `Ustar.Remade` | pintos/src/lib/ustar.c:75-227 | whatever header was parsed, a header made from the result parses to the same |
| `Ustar.RoundTrip` | pintos/src/lib/ustar.c:75-227 | a header that was made is parsed without error into the stripped name, the type, and the size (0 for a directory), for every size that is not negative; a negative size of a regular file is "file too large" |
| `Ustar.SizeComesBack` | pintos/src/lib/ustar.c:75-227 | a regular file is parsed back exactly when its size is not negative |
| `Ustar.OneByteChanged` | pintos/src/lib/ustar.c:175-227 | no header that parses still does after a change to one byte outside of the checksum field |
| `Malloc.BigPagesIs` | pintos/src/threads/malloc.c:106-113 | with 32-bit sums the number of pages is the one wanted up to 0xFFFFEFF4 bytes, 0 up to 0xFFFFFFF4, and 1 above |
| `Malloc.BigEnough` | pintos/src/threads/malloc.c:106-122 | the pages hold the request and the header exactly when the request is at most 0xFFFFFFF4 |
| `Malloc.LargestRequest` | pintos/src/threads/malloc.c:106-122 | the code fails here: a request for 0xFFFFFFFF bytes is served with a block of 4084 |
| `Heap.LiveApart` | pintos/src/threads/malloc.c:26-34 | live blocks never overlap |
| `Heap.LiveExtent` | pintos/src/threads/malloc.c:177-187 | a live block has room for what was granted, inside the memory of the pool |
| `Heap.TakeBlock` | pintos/src/threads/malloc.c:146-153 | taking a block from a free list keeps every count, list and live block consistent |
| `Heap.PutBlock` | pintos/src/threads/malloc.c:237-243 | so does putting one back |
| `Heap.AddArena` | pintos/src/threads/malloc.c:126-144 | so does a new arena, all of whose blocks join the free list |
| `Heap.DropArena` | pintos/src/threads/malloc.c:243-255 | a fully free arena has all its blocks on the list, and leaves none of them behind |
| `Heap.AddBig` | pintos/src/threads/malloc.c:106-122 | a block with pages of its own does not touch any other |
| `Heap.FreeBig` | pintos/src/threads/malloc.c:258-263 | nor does giving its pages back |
| `Heap.ArenaIffLive` | pintos/src/threads/malloc.c:237-264 | there is an arena at a page exactly while a live block starts there: when all blocks are freed, all pages are given back |
| `Heap.AddedForeign` | pintos/src/threads/malloc.c:126-144 | a new arena takes a page that nobody has, and changes no page of others |
| `Heap.BigForeign` | pintos/src/threads/malloc.c:106-122 | so do the pages of a big block |
| `Heap.DroppedForeign` | pintos/src/threads/malloc.c:243-255 | an arena that is given back frees exactly its page |
| `Heap.FreedForeign` | pintos/src/threads/malloc.c:258-263 | a big block that is given back frees exactly its pages |
| `Malloc.Allocator.Malloc` | pintos/src/threads/malloc.c:86-154 | a new block, the one that the free list or the pool has first, of the smallest descriptor that will do or wasting less than a page, while all live ones keep their bytes and no page is lost; it holds the request exactly when the request is at most 0xFFFFFFF4; a null pointer only for no bytes, a request that wraps around to no pages, or without memory |
| `Malloc.Allocator.Free` | pintos/src/threads/malloc.c:216-264 | exactly that block is gone, all other live blocks keep their bytes, and no page is lost |
| `Malloc.Allocator.BlockSize` | pintos/src/threads/malloc.c:177-187 | what the block may hold; the product does not wrap around in a 32-bit address space |
| `Malloc.Allocator.Realloc` | pintos/src/threads/malloc.c:189-214 | the first min(old, new) bytes move to the new block, and no page is lost; the only failing case is a request above 0xFFFFFFF4 for a block of more than a page, where the copy would leave the new block |
| `Malloc.Allocator.constructor` | pintos/src/threads/malloc.c:71-84 | seven descriptors, from 16 to 1024 bytes, each twice the one before; the comment above malloc says up to 2 kB |
| `Semaphore.SemaphoreRuns` | pintos/src/threads/synch.c:62-125 | under every interleaving: value = initial + ups - downs, and no lost wakeup: while a thread waits, the value is at most the number of threads woken that have not tested again |
| `Semaphore.DownOutcome` | pintos/src/threads/synch.c:62-77 | sema_down takes a unit if there is one, and otherwise the caller waits behind the others; nobody else moves |
| `Semaphore.UpOutcome` | pintos/src/threads/synch.c:109-125 | sema_up adds a unit and wakes exactly one waiter, if there is one; the others wait on in their order |
| `Semaphore.LockRuns` | pintos/src/threads/synch.c:196-248 | every interleaving of lock operations keeps the invariant of the lock |
| `Semaphore.MutualExclusion` | pintos/src/threads/synch.c:196-248 | at most one thread is between its sema_down and its sema_up |
| `Semaphore.HolderMeansDown` | pintos/src/threads/synch.c:196-248 | a lock with a holder has value 0, and the holder is the thread inside |
| `Semaphore.HolderAssertions` | pintos/src/threads/synch.c:196-248 | the assertions on the holder never fail, and the holder is null when it is set |
| `Semaphore.NobodyStranded` | pintos/src/threads/synch.c:62-125 | while a thread waits for a lock, another is inside or was woken |
| `Semaphore.WokenCanLose` | pintos/src/threads/synch.c:62-125 | a woken thread may find the lock taken by a third one and wait again |
| `Donation.StepInv` | pintos/src/threads/thread.c:767-833 | every step keeps: each recorded edge is for a lock that the recipient holds and the donor waits for, no donor is above its recipient, and each priority is the thread's own or a donor's |
| `Donation.PropagatePriorities` | pintos/src/threads/thread.c:780-795 | the nested loop, which ends on every recipient graph, cyclic ones too, leaves no recipient below its donor |
| `Donation.DonatePriorities` | pintos/src/threads/thread.c:767-795 | from a donor without a recipient, recording the edge and the nested loop keep that invariant |
| `Donation.NoRecipient` | pintos/src/threads/thread.c:767-778 | a thread that runs has no recipient, so the assertion in thread_donate_priority never fails |
| `Donation.LawIsLowerBound` | pintos/src/threads/thread.c:767-833 | in every reachable state the priority is the greatest of the own one and the donors' exactly when it is not below the own one |
| `Donation.LawLostExactlyBySinking` | pintos/src/threads/thread.c:797-833 | a step takes the law from a thread exactly when it releases a lock and drops donors while others stay, all below its own priority |
| `Donation.LawInTameRuns` | pintos/src/threads/thread.c:402-418 | the law holds in every state of every run in which no thread sets its own priority above one of its donors |
| `Donation.LawFails` | pintos/src/threads/thread.c:402-418 | the code fails here: a thread that raises itself above its donors and releases one of two locks sinks below its own priority |
| `DonationSteps.AcquireDonates` | pintos/src/threads/thread.c:767-795 | acquiring a held lock: the holder, and whoever it donates to through any number of others, has at least the caller's priority afterwards, by being raised to just that; nobody else's priority changes |
| `DonationSteps.AcquireRecords` | pintos/src/threads/synch.c:196-210 | the donation is recorded at both ends, for that lock, exactly when the holder was not above the caller; the caller waits behind the others; nothing else changes but priorities |
| `DonationSteps.AcquireTakes` | pintos/src/threads/synch.c:196-210 | a lock that nobody holds is taken, and no thread changes |
| `DonationSteps.TryAcquireTakes` | pintos/src/threads/synch.c:216-230 | the lock is taken exactly when nobody holds it; nothing else changes, and nothing is donated |
| `DonationSteps.WakeTakes` | pintos/src/threads/synch.c:62-77 | a woken thread takes the lock or waits again behind the others, and does not donate again |
| `DonationSteps.ReleaseWakes` | pintos/src/threads/synch.c:109-125 | lock_release with waiters wakes the first of those of the greatest priority and no other; the others wait on in their order, and the lock is free |
| `DonationSteps.SemaUpWakes` | pintos/src/threads/thread.c:758-763 | the same for sema_up alone, from any state |
| `DonationSteps.ReleaseFrees` | pintos/src/threads/synch.c:235-248 | lock_release without waiters leaves a free lock and wakes nobody |
| `DonationSteps.ReleaseRestores` | pintos/src/threads/thread.c:797-833 | the caller loses exactly the donations for that lock; its priority is then the greatest of the donors left, the own one when none is, and unchanged when there was no such donation |
| `DonationSteps.ReleaseOthers` | pintos/src/threads/thread.c:797-833 | the donors for that lock donate no longer, and nothing else about another thread changes but that one is woken |
| `DonationSteps.SetPriorityOutcome` | pintos/src/threads/thread.c:402-418 | the own priority is the new one, the effective one is the greatest of it and the donors', and nobody else changes |
| `DonationSteps.ExitOutcome` | pintos/src/threads/thread.c:343-363 | the thread is gone, and no lock and no other thread changes |
| `Kernel.Kernel.DonatePriority` | pintos/src/threads/thread.c:767-795 | the loop makes the step; it ends because each round removes a thread from those below the donated priority |
| `Kernel.Kernel.RestorePriority` | pintos/src/threads/thread.c:797-833 | donors of that lock leave the list, and the priority is computed from those that stay, or is the own one when none do |
| `Kernel.Kernel.LockAcquire` | pintos/src/threads/synch.c:196-210 | makes the step Acquire: donation through the chain of holders (DonationSteps.AcquireDonates, AcquireRecords), then sema_down up to where it blocks or returns |
| `Kernel.Kernel.LockTryAcquire` | pintos/src/threads/synch.c:216-230 | takes the lock exactly when nobody holds it |
| `Kernel.Kernel.LockRelease` | pintos/src/threads/synch.c:235-248 | makes the step Release: the donations for the lock are dropped (DonationSteps.ReleaseRestores) and the first waiter of the greatest priority is woken (DonationSteps.ReleaseWakes) |
| `Kernel.Kernel.SemaphoreUp` | pintos/src/threads/synch.c:109-125 | the same for the semaphore alone (DonationSteps.SemaUpWakes) |
| `Kernel.Kernel.ThreadSetPriority` | pintos/src/threads/thread.c:402-418 | the own priority, and the greatest of it and the donors' |
| `Kernel.Kernel.ThreadExit` | pintos/src/threads/thread.c:343-363 | a thread without a lock leaves no edge behind |
| `Sequences.FindGreatest` | pintos/src/lib/kernel/list.c:487-506 | list_max by rank: the first of the greatest |
| `Scheduler.StepInv` | pintos/src/threads/thread.c:276-381 | every thread other than the idle one stays in exactly the place that its status tells: running, ready, waiting for one semaphore, or asleep |
| `Scheduler.OnePlace` | pintos/src/threads/thread.c:276-381 | in every reachable state each of them is in exactly one of these places, and on each list at most once |
| `Scheduler.RoundRobin` | pintos/src/threads/thread.c:367-381 | with k threads of the greatest priority that only yield, dispatch n goes to number n mod k of them |
| `Scheduler.YieldRotates` | pintos/src/threads/thread.c:367-381 | thread_yield runs the first queued of the greatest priority and puts it behind its equals |
| `Scheduler.TickWakes` | pintos/src/threads/thread.c:159-173 | after each tick the sleepers are sorted and exactly those whose time is in the future; the others became ready in that order |
| `Scheduler.SleepStep` | pintos/src/threads/thread.c:711-745 | a sleeper stays asleep until the tick of its wakeup time and is ready then |
| `Scheduler.SleepsUntil` | pintos/src/threads/thread.c:711-745 | along any run it stays asleep, with its wakeup time, as long as that is in the future |
| `SchedulerSteps.SleepOutcome` | pintos/src/threads/thread.c:711-727 | thread_enter_sleep for n > 0 ticks: the caller is to wake at the present time plus n, queued among the sleepers behind all of no later time, and the next thread is dispatched; for n <= 0 nothing changes |
| `SchedulerSteps.SleepsFor` | pintos/src/threads/thread.c:711-745 | after Sleep(n) at time T, along every run: while the time is before T + n the thread is asleep |
| `SchedulerSteps.WakesOnTime` | pintos/src/threads/thread.c:729-745 | and the tick that makes the time T + n puts it on the ready list |
| `SchedulerSteps.WakeOutcome` | pintos/src/threads/thread.c:758-763 | sema_up makes the first waiter of the greatest priority ready, at the end of the line; the others wait on in their order, and nothing else changes |
| `SchedulerSteps.ScheduleDispatches` | pintos/src/threads/thread.c:603-683 | the first of the ready threads of the greatest priority runs and leaves the line; with nobody in line the idle thread runs |
| `SchedulerSteps.YieldOutcome` | pintos/src/threads/thread.c:367-381 | the caller joins the end of the line first, unless it is the idle thread |
| `SchedulerSteps.CreateOutcome` | pintos/src/threads/thread.c:228-270 | the new thread and then the caller join the end of the line |
| `SchedulerSteps.WaitOutcome` | pintos/src/threads/synch.c:62-77 | a thread that waits joins the end of that semaphore's list, and the next one is dispatched |
| `SchedulerSteps.ExitOutcome` | pintos/src/threads/thread.c:343-363 | the caller is gone, and the next one is dispatched |
| `Scheduler.InsertSorted` | pintos/src/threads/thread.c:711-727 | insertion by wakeup time keeps the sleepers sorted, each once |
| `Scheduler.Cpu.Dispatch` | pintos/src/threads/thread.c:603-683 | the idle thread when nobody is ready, otherwise the first of the greatest priority |
| `Scheduler.Cpu.ThreadYield` | pintos/src/threads/thread.c:367-381 | makes the step YieldNow |
| `Scheduler.Cpu.ThreadCreate` | pintos/src/threads/thread.c:228-270 | makes the step Create |
| `Scheduler.Cpu.ThreadUnblock` | pintos/src/threads/thread.c:294-306 | the thread is ready, at the end of the list |
| `Scheduler.Cpu.ThreadBlock` | pintos/src/threads/thread.c:276-284 | the thread is blocked, and another one runs |
| `Scheduler.Cpu.SemaWait` | pintos/src/threads/synch.c:62-77 | makes the step Wait |
| `Scheduler.Cpu.SemaWake` | pintos/src/threads/synch.c:109-125 | makes the step Wake |
| `Scheduler.Cpu.InsertOrdered` | pintos/src/threads/thread.c:711-721 | list_insert_ordered by wakeup time, as the function says |
| `Scheduler.Cpu.ThreadEnterSleep` | pintos/src/threads/thread.c:711-727 | makes the step Sleep, which SchedulerSteps.SleepOutcome and SleepsFor describe; does nothing for no ticks |
| `Scheduler.Cpu.ThreadExitSleep` | pintos/src/threads/thread.c:729-745 | wakes the thread exactly when its time has come |
| `Scheduler.Cpu.ThreadTick` | pintos/src/threads/thread.c:136-173 | makes the step Tick |
| `Scheduler.Cpu.ThreadExit` | pintos/src/threads/thread.c:343-363 | makes the step Exit |
| `Mlfqs.LoadBound` | pintos/src/threads/thread.c:865-878 | with at most N threads ready, 0 <= load_avg <= N * 2^14 is kept by an update with truncating division |
| `Mlfqs.DecayBound` | pintos/src/threads/fixed-point.h:37-53 | the decay factor is at most 2N / (2N + 1) in fixed point, despite truncation |
| `Mlfqs.RecentBound` | pintos/src/threads/thread.c:855-863 | right after an update -(40N + 20) * 2^14 <= recent_cpu <= (240N + 20) * 2^14 |
| `Mlfqs.StepInv` | pintos/src/threads/thread.c:175-201 | every tick, creation, exit and change of nice keeps the bounds, with up to a second of ticks added |
| `Mlfqs.BoundsInRuns` | pintos/src/threads/thread.c:175-201 | the bounds hold in every reachable state with at most N threads at a time |
| `Mlfqs.NoOverflow` | pintos/src/threads/fixed-point.h:9-53 | the products stay in 64 bits and the conversion in 32 bits for up to 2^20 threads |
| `MlfqsSteps.PriorityIs` | pintos/src/threads/thread.c:847-853 | the priority is within one of PRI_MAX - recent_cpu / 4 - 2 * nice, on the side that truncation says, and is PRI_MIN or PRI_MAX exactly when that leaves the range |
| `MlfqsSteps.PriorityUnique` | pintos/src/threads/thread.c:847-853 | these conditions leave one priority |
| `MlfqsSteps.PriorityFalls` | pintos/src/threads/thread.c:847-853 | a thread that is nicer, or has used more of the processor, never has the greater priority |
| `MlfqsSteps.LoadIs` | pintos/src/threads/thread.c:865-878 | the new load average falls short of 59/60 of the old one and 1/60 of the threads by less than one unit, 14/15 of a unit for each whole of the load and 1/15 of a unit for each thread |
| `MlfqsSteps.RecentIs` | pintos/src/threads/thread.c:855-863 | the new recent_cpu differs from 2 * load / (2 * load + 1) of the old one plus nice, towards nice, by less than recent_cpu / 2^14 + 1 units |
| `MlfqsSteps.TickOutcome` | pintos/src/threads/thread.c:175-187 | a tick advances the time by one, and renews the load average once a second from the ready threads and the running one |
| `MlfqsSteps.TickThreadOutcome` | pintos/src/threads/thread.c:175-201 | a tick charges the running thread one; every fourth tick each priority follows its recent_cpu, and once a second each recent_cpu follows the new load average; nothing else changes |
| `Mlfqs.Clock.RecalculateLoadAvg` | pintos/src/threads/thread.c:865-878 | the new load average from the ready threads and the running one |
| `Mlfqs.Clock.UpdateAll` | pintos/src/threads/thread.c:175-201 | every thread is updated once, priority before recent_cpu, by the formulas that MlfqsSteps.PriorityIs and RecentIs describe |
| `Mlfqs.Clock.Tick` | pintos/src/threads/thread.c:175-201 | makes the step Tick, which MlfqsSteps.TickOutcome and TickThreadOutcome describe, and keeps the bounds |

## Left out

- Inode.Inode.GrowHuge: does not model growth from one second-level array into the next (inode.c:304-361), where the
  code writes through `sector_array` instead of `sector_array1`; `Growable` keeps growth out of that path.
- Inode.Inode.ExpandSectors, Inode.Inode.Expand, Inode.Inode.WriteAt: need `Growable`, for the same path.
- Inode.Inode.WriteAt: does not say what a file holds after a growth in place that ran out of sectors; the code leaves
  the new length with missing sectors.
- Store.Store.CreateHuge: the model stops where the code goes on with an unset start sector or behind the array.
- Malloc.Allocator.Realloc: the model stops before a copy that leaves the new block; what it destroys is not modelled.
- Donation.Enabled: priorities are from PRI_MIN to PRI_MAX, which thread_set_priority does not check.
- Mlfqs.Enabled: nice is from -20 to 20, which thread_set_nice does not check; the priority formula itself
  (`MlfqsSteps.PriorityIs`) is for every nice.
- Stdio.FormatInteger: unsigned conversions with the flags '-' and '0', a width and a precision; not signs, grouping or
  the '#' flag, nor the parsing of format strings.
- KernelList.ListSplice: source and target are in one list.
- HeapSort.Sort: the sizes of elements are exact numbers, so products of count and size do not wrap around.
- list_unique, list_min, list_size: easy beside the members here.
- vpage_info_swapped_allocate has no caller; a failing pagedir_set_page and the read and write of the free map's own
  file are not modelled.
- last_use of a page is set when it is brought in, as in the code; accesses do not change it.
- Concurrency inside the file stack, and read-ahead, whose thread is never started.
- Condition variables; MLFQS together with donation; the start of the idle thread.
- calloc, palloc's user pool and page zeroing, cleanup after failed allocations.
- Drivers, interrupts and context switch, console, ELF loading, system calls, directories and the dentry cache.
