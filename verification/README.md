# Verified cores of a systems course

Dafny models of the algorithmic cores of a set of systems-course solutions, with proofs of what each is for.
Every operation takes the branches of its C (or x86-64 assembly) original, except where "Left out" says otherwise;
what the original changes in place is changed in place here.

* **Software floating point** (`FloatSpec.dfy`, `SoftFloat.dfy`, `FloatLaws.dfy`, on `Powers.dfy`). Addition and multiplication of binary32 numbers
  through an unpacked form with a 64-bit mantissa. The specification is section 4.3.1 of IEEE 754-2019 taken
  literally: among all finite floats none is closer to the exact result, ties go to the even one, and from the
  overflow threshold on the result is an infinity. Exact values are integers in units of 2^-298. The
  theorems say for which operands, and for which only, the code conforms.
* **Segregated-fit allocator** (`HeapLayout.dfy`, `HeapMemory.dfy`, `HeapBytes.dfy`, `FreeLists.dfy`,
  `HeapFacts.dfy`, `Allocator.dfy`, `HeapLaws.dfy`, `AllocatorRuns.dfy`, on `Sequences.dfy`). Memory is a map of 32-bit words that holds boundary tags and, inside free
  payloads, the pointers of 196 doubly linked lists. The invariant ties the words to a tiling of the heap by
  blocks and the lists to exactly the free blocks. `AllocatorRuns.Client` gives the client's view: handles to independent byte
  strings, over whole runs; the operations alone decide every pointer.
* **Page tables** (`PageWalk.dfy`, `PageUpdates.dfy`, `PageTables.dfy`, `PageRuns.dfy`). Four-level tables as frames of
  entries, and the processor's walk (section 4.5 of the Intel SDM, volume 3A), with write permission the
  conjunction along the walk. Mapping and unmapping refine a partial function from addresses; over whole runs the requests
  alone decide every outcome.
* **Cache simulator** (`LruSpec.dfy`, `CacheSpec.dfy`, `CacheLines.dfy`, `CacheSim.dfy`). The arrays of a set-associative LRU cache
  against the stack-distance characterisation of its hits.
* **Search tree** (`SearchTree.dfy`). Linked nodes on the heap, iterative search, deletion by the successor.
* **Sorting** (`Segments.dfy`, `QuickSort.dfy`, `HeapSort.dfy`). Quicksort as a machine with registers, a stack with return
  addresses and byte-addressed words; generic heapsort with an abstract comparator.
* **k-best sampling** (`Sampler.dfy`) and **matrix multiplication** (`MatMul.dfy`).

`dafny verify dfyconfig.toml` checks everything.

## Where the code does not do what it is for

Each of these is stated exactly in the contracts, and holds for all inputs outside the condition named.

* `fp_mul` gives NaN for two infinities, because an unpacked infinity carries mantissa 0 (lib.c:408).
* `fp_add` of +0 and -0 gives -0 (lib.c:344-346).
* A shrinking `mm_realloc` splits without joining the remainder to a free successor (mm.c:409-412). One such call can leave
  neighbouring free blocks, and then a growing `mm_realloc` that the first of them is too small for, and the ones after it are not,
  enters the loop at mm.c:438-440, which never advances. `AllocatorRuns.ShrinkThenGrow` does so on a new heap.
* `extend_heap` hands a `size_t` to `mem_sbrk`'s `int` parameter (mm.c:243), so a request that should be refused can be granted with the low 32
  bits of its size; and the block size of the 15 largest sizes wraps around (mm.c:48). `Allocator.Representable` is the exact condition
  (`UncutIsRight`, `BlockSizeWraps`); every size up to 2^32 - 16 meets it.
* `unmap` keeps emptied tables, so a later `map_large` or `map_huge` of a region where nothing is mapped is refused
  (pagetables.c:126-130).
* `insert` searches by value but links by key (tree.c:27, tree.c:77). The new leaf comes where the search ended if and only if the last
  node of the search compares alike by key and by value (`SearchTree.Agrees`). Otherwise the leaf is linked on the other side, and whatever
  hung there is lost; `SearchTree.MismatchLosesNode` shows it.
* csim.c:55 stores one slot past the end of `lru`. The model stores into the last slot, as the comment above the line and
  csim.h:15 say; without that store the order stops being a permutation.

## Assumptions

* `to_ieee754` checks for overflow only when the mantissa is wider than 24 bits (lib.c:235-299). `SoftFloat.Packable` is a range in which
  its result is the correct rounding; every value that `fp_add` and `fp_mul` hand over is proved to be in it, and no caller outside
  lib.c can hand over another.
* Allocator: a page of at most 2^30 bytes, a heap shorter than 2^31 bytes, `mem_sbrk` as in memlib.c:58-69, and for
  the floating-point step of the size classes only that it is monotone.
* Page tables: physical addresses are cut at bit 48, as the base fields are; frames that `posix_memalign` returns are new and below 2^48 bytes; they are parameters here.
* Cache, matrix multiplication and sorting: counters and products of unbounded integers, and a comparator that is a total preorder.
* Sampler: samples are real numbers.

## Model

| member | source | states |
|---|---|---|
| SoftFloat.FpMul | assignment8-ce/lib.c:431-438 | for every pair of floats, the result is the exact product rounded once to nearest-even with the exclusive-or sign (infinities, NaNs, underflow and overflow included) if and only if the operands are not two infinities; two infinities give NaN; every NaN result is the one of get_NaN |
| SoftFloat.FpAdd | assignment8-ce/lib.c:394-401 | for every pair of floats, the result is the exact sum rounded once to nearest-even, with IEEE's sign of a zero sum, if and only if the operands are not +0 and -0 in this order; that pair gives -0; every NaN result is the one of get_NaN |
| SoftFloat.Repack | assignment8-ce/lib.c:214-325 | packing after unpacking is the identity on every well-formed float that is not a NaN; NaNs collapse into the one of get_NaN |
| FloatSpec.RoundingIsUnique | assignment8-ce/lib.c:137-163 | the rounding relation used in the theorems has at most one result, so it fixes sign, exponent and fraction |
| FloatSpec.NearestAreNeighbours | assignment8-ce/lib.c:151-159 | two different nearest floats can only be neighbours at equal distance, the tie that evenness decides |
| FloatSpec.MagnitudeIncreases | assignment8-ce/lib.c:8-12 | the packed order of exponent and fraction is the order of the values |
| FloatSpec.RoundsOnGrid | assignment8-ce/lib.c:137-163 | the nearest multiple of the binade's (or the subnormal) grid is the nearest of all finite floats, finer or coarser ones included |
| SoftFloat.UnpackingIsExact | assignment8-ce/lib.c:301-325 | an unpacked finite float has exactly the value of the packed one |
| SoftFloat.ShiftRoundsToNearest | assignment8-ce/lib.c:145-162 | guard, round and sticky bit together round the shifted mantissa to the nearest integer, ties to even |
| SoftFloat.InternalRef.ShiftRightMantissa | assignment8-ce/lib.c:138-163 | the new state is the rounding shift, with the carry into a power of two shifted out once more, and zero from 64 on |
| SoftFloat.InternalRef.PostNormalize | assignment8-ce/lib.c:130-135 | a mantissa whose low 23 bits are zero is shifted once, any other is left alone |
| SoftFloat.InternalRef.ShiftLeftToMantissaPosition | assignment8-ce/lib.c:327-332 | the hidden bit ends up set, the value is unchanged, and the exponent falls by at most 23 |
| SoftFloat.InternalRef.TryDenormalize | assignment8-ce/lib.c:167-212 | for every value below the smallest normal the packed result is that value rounded once, also when rounding reaches the smallest normal or zero |
| SoftFloat.ToIeee754 | assignment8-ce/lib.c:214-299 | every finite unpacked value in the range that addition and multiplication hand over is packed as its single correct rounding: normal, subnormal, zero or overflow to infinity |
| SoftFloat.PackWide | assignment8-ce/lib.c:235-259 | mantissas of more than 24 bits: the result is the value rounded once, whichever of the four exits is taken |
| SoftFloat.PackNarrow | assignment8-ce/lib.c:260-285 | mantissas of fewer than 24 bits: shifting left and packing, or keeping the value subnormal, is exact rounding |
| SoftFloat.LeadingShift | assignment8-ce/lib.c:237-241 | the loop finds the shift that brings the leading one to the hidden-bit position |
| SoftFloat.TrailingShift | assignment8-ce/lib.c:262-268 | the loop finds the left shift that brings the leading one to the hidden-bit position |
| SoftFloat.PackNormal | assignment8-ce/lib.c:253-259 | rounding in a binade carries into the next one, and overflows to infinity, exactly where the standard says |
| SoftFloat.PackSubnormal | assignment8-ce/lib.c:186-211 | rounding on the subnormal grid is correct rounding, with a carry giving the smallest normal |
| SoftFloat.Vanishes | assignment8-ce/lib.c:140-143 | shifting out 64 bits or more leaves zero, and zero is then the nearest multiple |
| SoftFloat.MultIsExact | assignment8-ce/lib.c:419-425 | the wrapped 64-bit product of two unpacked floats is the exact product |
| SoftFloat.AlignedFits | assignment8-ce/lib.c:367-376 | for exponent differences that are not cut short, the aligned mantissa and the aligned sum fit in 64 bits |
| SoftFloat.AddMantissas | assignment8-ce/lib.c:375-388 | the signed result equals the signed sum of the aligned mantissas, and a zero result is positive |
| SoftFloat.FarApart | assignment8-ce/lib.c:367-372 | the operand that is dropped is less than a quarter of the last place of the one that is kept |
| SoftFloat.AbsorbedRounds | assignment8-ce/lib.c:367-372 | packing the kept operand is the correct rounding of the exact sum of both |
| SoftFloat.AddAligned | assignment8-ce/lib.c:350-390 | the result is the exact sum, or the larger operand when that absorbs the other |
| SoftFloat.Add | assignment8-ce/lib.c:334-391 | special cases as the standard has them, and otherwise the exact sum or the absorbing operand |
| SoftFloat.SumWithZero | assignment8-ce/lib.c:344-346 | returning the other operand is right for every zero but +0 added to -0 |
| FloatLaws.DecodeUndoesEncode | assignment8-ce/lib.c:95-120 | every 32-bit word comes back from the struct made of it |
| FloatLaws.EncodeUndoesDecode | assignment8-ce/lib.c:95-120 | and every well-formed struct from its word |
| FloatLaws.Patterns | assignment8-ce/lib.c:55-86 | the words of 1, the zeros, the infinities, a NaN and the smallest number, and the structs they stand for |
| FloatLaws.OneIsNeutral | assignment8-ce/lib.c:69-72 | multiplying by the struct (0, 127, 0) of get_1, on either side, changes no float, and by (1, 127, 0) only the sign |
| FloatLaws.SumWithItself | assignment8-ce/lib.c:394-401 | the only sum of a finite float and itself is the next exponent, infinity after exponent 254, and twice the fraction below the normals |
| FloatLaws.OppositesCancel | assignment8-ce/lib.c:394-401 | a finite float and its opposite add up to +0 |
| FloatLaws.TiesGoToEven | assignment8-ce/lib.c:137-163 | adding half of the last place leaves an even fraction and raises an odd one, into the next exponent if need be |
| FloatLaws.InfinityAbsorbs | assignment8-ce/lib.c:334-342 | sums and products with an infinity, by the patterns of the operands |
| HeapLayout.TilesPartition | assignment3/mm.c:59-60 | every address between prologue and epilogue lies in exactly one block |
| HeapLayout.AllFreedIsOneBlock | assignment3/mm.c:184-237 | a heap without neighbouring free blocks in which nothing is live is one free block from end to end |
| HeapLayout.CoalescedShape | assignment3/mm.c:184-237 | joining with free neighbours keeps the tiling and every live block, and removes the only pair of neighbouring free blocks |
| HeapLayout.ExtendNoAdjacent | assignment3/mm.c:240-261 | a new block at the end of the heap can only have a free neighbour before it |
| HeapLayout.PlacedNoAdjacent | assignment3/mm.c:263-287 | splitting leaves neighbouring free blocks if and only if a block in use is shrunk by at least a minimum block in front of a free one |
| HeapLayout.NoOvershoot | assignment3/mm.c:414-440 | without neighbouring free blocks the growth scan stops at the immediate successor or nowhere, so the removal loop is never entered |
| HeapLayout.ShrunkOvershoots | assignment3/mm.c:409-440 | wherever the heap starts and however large its first page is, a block in use at its start, shrunk once, leaves two free neighbours beyond which a growth request scans |
| HeapLayout.OnlyBlock | assignment3/mm.c:184-237 | the only block of a heap has nothing to be joined with |
| HeapLayout.ScanResult | assignment3/mm.c:414-433 | where the growth scan stops, how much it has gathered, and when that is the immediate successor |
| FreeLists.IndexMonotone | assignment3/mm.c:90-113 | larger sizes never map to smaller classes, across the exact, linear and doubling ranges |
| FreeLists.ExactClass | assignment3/mm.c:90-95 | below class 128 the class determines the size |
| FreeLists.BypassLinked | assignment3/mm.c:135-166 | after the four-case unlinking the list is the old one without the node, with consistent predecessor and successor pointers |
| FreeLists.PushLinked | assignment3/mm.c:168-182 | after insertion at the head the list is the new node before the old ones, consistently linked |
| FreeLists.RemoveKeepsLinked | assignment3/mm.c:135-166 | unlinking in one list leaves all other lists linked and writes only into list pointers of free blocks |
| FreeLists.AddKeepsLinked | assignment3/mm.c:168-182 | insertion in one list leaves all other lists linked and writes only into list pointers of free blocks |
| FreeLists.RemoveKeepsFiled | assignment3/mm.c:135-140 | the lists still hold exactly the free blocks, each once and by class, but for the removed one |
| FreeLists.AddKeepsFiled | assignment3/mm.c:168-173 | the lists hold exactly the free blocks, each once and by class, with the added one |
| HeapMemory.WritePtr | assignment3/mm.c:62-66 | storing a 64-bit pointer in two words reads back as stored and changes nothing else |
| HeapFacts.BlockSize | assignment3/mm.c:48 | a block for a request is a multiple of 8, at least 24, with room for the request and both tags, and wastes less than 16 bytes unless minimal |
| HeapLaws.BlockSizeLeast | assignment3/mm.c:48 | it is the smallest multiple of 8 with at least 24 bytes and 8 more than asked for |
| HeapLaws.ClassBounds | assignment3/mm.c:77-113 | below 1048 bytes every size has its own class; then the linear step decides up to class 187; from class 188 on the bounds double, 32816 bytes first, and class 195 is open |
| HeapLaws.PlacedParts | assignment3/mm.c:263-287 | placing wastes fewer than 24 bytes; a remainder split off is free and ends where the block did; no other block changes |
| HeapLaws.CoalescedElsewhere | assignment3/mm.c:184-237 | joining swallows free blocks inside the joined one only, and leaves the others as they were |
| HeapLaws.LiveDecidesBlocks | assignment3/mm.c:184-237 | without neighbouring free blocks, the blocks in use decide where all the free ones are |
| HeapLaws.TagWords | assignment3/mm.c:32-42 | the words before and at the end of every block hold its size, plus 1 for a block in use; prologue and epilogue hold 9 and 1 |
| HeapLaws.ServedIsDetermined | assignment3/mm.c:361-379 | blocks, lists and break before a request decide those after it, and the pointer |
| HeapLaws.InPlaceIsDetermined | assignment3/mm.c:397-461 | the same for a reallocation |
| HeapLaws.FreeThenMalloc | assignment3/mm.c:361-392 | a block freed between blocks in use is the next one handed out for its size, and the blocks are as before |
| HeapBytes.BytesMakeWord | assignment3/mm.c:457-458 | the bytes of a word count 1, 2^8, 2^16 and 2^24 |
| Allocators.Allocator.MapToFreeListIndex | assignment3/mm.c:90-113 | the loop computes the class function of which monotonicity and exactness are proved |
| Allocators.Allocator.RemoveFreeBlockFromList | assignment3/mm.c:135-166 | the block leaves its list, every other list and their order stay, and nothing else of the heap invariant or of any payload changes |
| Allocators.Allocator.AddFreeBlockToList | assignment3/mm.c:168-182 | the block comes in front of the list of its class, every other list stays, and nothing else of the heap invariant or of any payload changes |
| Allocators.Allocator.Coalesce | assignment3/mm.c:184-237 | in all four cases the heap is well formed, the block is joined with exactly its free neighbours, these leave their lists and the joined block heads its own, and live payloads are kept |
| Allocators.Allocator.ExtendHeap | assignment3/mm.c:240-261 | fails exactly when the limit is passed and then changes nothing; else the old epilogue becomes a free block joined with its free predecessor, large enough for the request |
| Allocators.Allocator.Place | assignment3/mm.c:263-287 | the blocks are the old ones with this one in use and off its list, the remainder split off when large enough and in front of its list; live payloads are kept |
| Allocators.Allocator.FindFit | assignment3/mm.c:115-133 | NULL only if no free block anywhere is large enough; a result is the first that fits in the order of the first class in which one does, and a smallest fit when it has fewer than 1048 bytes |
| Allocators.Allocator.MemSbrk | assignment3/memlib.c:58-69 | refuses negative increments and ones past the limit, else returns the old break |
| HeapFacts.BlockSizeWraps | assignment3/mm.c:48 | in 64-bit arithmetic the block size is right if and only if the size is at most 2^64 - 16; for the 15 larger ones it comes out as 0 or 8 |
| Allocators.Allocator.UncutIsRight | assignment3/mm.c:240-245 | after the conversion to int mem_sbrk refuses exactly what the heap has no room for, if and only if the bytes wanted survive the conversion or are refused after it |
| Allocators.Allocator.CutIsGranted | assignment3/mm.c:361-379 | the other sizes are exactly those that should be refused and for which mem_sbrk grants the fewer bytes that are left of them |
| Allocators.Allocator.FourGigabytes | assignment3/mm.c:240-245 | a request of 2^32 bytes is representable if and only if the heap has no room for 8 more bytes, the low 32 bits of its block size |
| Allocators.Allocator.SmallIsRepresentable | assignment3/mm.c:240-245 | sizes up to 2^32 - 16 are representable, whatever the state of the heap |
| Allocators.Allocator.MmInit | assignment3/mm.c:325-355 | succeeds exactly when 1584 bytes and the rounded first page fit, and then the heap is well formed, ends there, and is one free block on one list |
| Allocators.Allocator.MmMalloc | assignment3/mm.c:361-379 | for every size whose block size neither wraps around nor is cut on its way to mem_sbrk: NULL exactly for size 0 or when no free block fits and the heap cannot grow; else a fitting free block is split, or the heap grows when there is none, giving one new live block with room for the request and every other live payload kept byte for byte |
| Allocators.Allocator.MmFree | assignment3/mm.c:384-392 | exactly the freed block stops being live, it heads its list, is joined with its free neighbours, and live payloads are kept; the break stays |
| Allocators.Allocator.ScanForward | assignment3/mm.c:414-433 | the loop computes the scan whose results the lemmas describe |
| Allocators.Allocator.ReallocShrink | assignment3/mm.c:409-412 | the block stays in place with its bytes, and neighbouring free blocks arise if and only if the remainder is split off before a free block |
| Allocators.Allocator.ReallocGrow | assignment3/mm.c:435-450 | the free successor is absorbed, the bytes and every other live payload stay |
| Allocators.Allocator.ReallocMove | assignment3/mm.c:452-460 | a fresh block, served as any request of that size would be, holds the first min(old, new) bytes, the old one is freed after it, other payloads stay; NULL, exactly when that request is refused, leaves the heap as it was |
| Allocators.Allocator.MmRealloc | assignment3/mm.c:397-461 | for the same sizes: loops for ever if and only if growing has to absorb two or more free blocks; else returns, with NULL exactly when refused; a NULL pointer is served as mm_malloc would, size 0 frees, shrinking and growing happen in place exactly where they can, and else the block moves; the common prefix and all other payloads are preserved; neighbouring free blocks arise in one case only |
| Allocators.Allocator.MemCpy | assignment3/mm.c:457-458 | the first n bytes at the destination are those of the source, and no byte beyond them changes |
| AllocatorRuns.Client.ValidIsSeparate | assignment3/mdriver.c:366-392 | live payloads are 8-aligned, inside the heap, large enough for their requests and pairwise disjoint |
| AllocatorRuns.Client.Alloc | assignment3/mm.c:361-379 | a client sees no change, exactly when the size is 0 or the heap is exhausted, or else one new byte string of the requested length, all others unchanged |
| AllocatorRuns.Client.Free | assignment3/mm.c:384-392 | a client sees exactly one byte string disappear |
| AllocatorRuns.Client.Realloc | assignment3/mm.c:397-461 | a client sees its string with the new length and the common prefix kept, every other string unchanged; nothing changes exactly when the request is refused, and size 0 removes the string |
| AllocatorRuns.Client.Write | assignment3/mdriver.c:648 | a client's own write changes that byte of that string only and keeps the heap well formed |
| AllocatorRuns.Client.Run | assignment3/mm.c:361-461 | over every run of allocations, frees, reallocations and writes each step is a step of independent byte strings in which exactly the requests the heap cannot serve are refused, and a step of blocks, lists and break as each operation's rule has it; the run stops early exactly at the first reallocation that loops or size that is cut; as long as no shrinking splits something off in front of a free block, no free neighbours arise and nothing loops |
| AllocatorRuns.RunsAreDetermined | assignment3/mm.c:361-461 | two runs of the same operations from the same layout pass through the same layouts and pointers, whatever the bytes are |
| AllocatorRuns.Client.FreeAll | assignment3/mm.c:384-392 | freeing every live block, in a heap without neighbouring free blocks, leaves one free block that spans the heap |
| AllocatorRuns.InitRunFreeAll | assignment3/mm.c:325-461 | from initialisation through any run, reallocations included, to freeing what is left: one free block spans the heap, which never shrank, unless a shrinking split something off in front of a free block or a size was cut |
| AllocatorRuns.SmallNeverCut | assignment3/mm.c:240-245 | no operation with a size of at most 2^32 - 16 is ever cut |
| AllocatorRuns.ShrinkThenGrow | assignment3/mm.c:397-461 | on a new heap, malloc(64), realloc to 40 and realloc to 72 enter the loop that never advances, for every page size of 96 bytes or more |
| PageTables.PageTable.Map | assignment11/paginglab/pagetables.c:191-233 | fails exactly when a page or table is in the way; success adds exactly the aligned 4K region at the aligned physical page below bit 48, with the low write bit given; failure changes no translation; a directory entry's write bit is set afterwards exactly if it was, or if the request asks for it and the entry is on the way; the tables stay an unshared tree, grown only on the path to the address |
| PageTables.PageTable.MapLarge | assignment11/paginglab/pagetables.c:147-182 | 2M regions: exact failure condition, exactly the aligned region added on success, at the aligned physical page below bit 48, no translation changed on failure, unshared tree kept; a directory entry's write bit is set afterwards exactly if it was, or if the request asks for it and the entry is on the way |
| PageTables.PageTable.MapHuge | assignment11/paginglab/pagetables.c:115-139 | 1G regions: exact failure condition, exactly the aligned region added on success, at the aligned physical page below bit 48, no translation changed on failure, unshared tree kept; a directory entry's write bit is set afterwards exactly if it was, or if the request asks for it and the entry is on the way |
| PageTables.PageTable.Unmap | assignment11/paginglab/pagetables.c:242-273 | exactly the page that covers the address, whatever its size, stops being translated; no table goes away and no directory entry changes |
| PageTables.MapRefusedIffTranslated | assignment11/paginglab/pagetables.c:224-227 | a 4K mapping fails if and only if its address is already translated |
| PageTables.PageTable.ParseVirtAddr | assignment11/paginglab/pagetables.c:46-57 | the five parts, below 2^9 and 2^12, make up the address's low 48 bits again: 2^39, 2^30, 2^21, 2^12 and 1 times each |
| PageTables.PageTable.SetDirectoryEntry | assignment11/paginglab/pagetables.c:98-103 | the entry is present, refers to the frame and carries the low bit of the write flag |
| PageTables.PageTable.AllocTable | assignment11/paginglab/pagetables.c:80-88 | a new frame of absent entries, every other frame unchanged |
| PageTables.PageTable.NewDirectory | assignment11/paginglab/pagetables.c:151-153 | hanging a new empty table below an absent entry changes no translation and no other entry's write bit, and keeps the tree unshared |
| PageTables.PageTable.AllowWrites | assignment11/paginglab/pagetables.c:154-156 | widening the write bit of a directory entry changes no translation, permissions included, and no other entry's write bit |
| PageTables.PageStored | assignment11/paginglab/pagetables.c:176-180 | storing a page entry translates exactly the aligned span to the aligned physical page and keeps the tree |
| PageTables.PageMapped | assignment11/paginglab/pagetables.c:115-233 | after a success the address translates into 1G, 2M or 4K of memory that begins at the aligned physical address below bit 48 |
| PageTables.UnmapUndoesMap | assignment11/paginglab/pagetables.c:242-273 | unmapping right after a successful mapping restores every translation |
| PageTables.EntryCleared | assignment11/paginglab/pagetables.c:250-272 | clearing an entry without a table removes exactly the page it translated |
| PageTables.StoredBase | assignment11/paginglab/pagetables.c:133-137 | the page number cut to the base field, shifted back, is the start of the physical page below bit 48 |
| PageWalk.PageBaseIsRequested | assignment11/paginglab/pagetables.c:133-137 | that is the page asked for if and only if it begins below 2^48 |
| PageTables.DugTo | assignment11/paginglab/pagetables.c:191-222 | the tables on the path to an address reach the requested depth, or as far as a larger page lets them |
| PageTables.BlockedAt | assignment11/paginglab/pagetables.c:126-130 | what the entry found on the way says about the success condition |
| PageWalk.WalkStep | assignment11/paginglab/pagetables.c:98-103 | one step of translation in a well-formed tree; the write bits above a leaf never take a permission away |
| PageWalk.WritableIsLeafBit | assignment11/paginglab/pagetables.c:119-124 | effective write permission, the conjunction along the whole walk, equals the write bit of the last entry |
| PageWalk.WalkFrom | assignment11/paginglab/pagetables.c:59-76 | a translation goes on in the table its path passes through |
| PageWalk.SamePageIsSamePath | assignment11/paginglab/pagetables.c:46-57 | two addresses lie in the same 512G, 1G, 2M or 4K page if and only if their indices agree down to that level |
| PageWalk.IndicesMakeAddress | assignment11/paginglab/pagetables.c:46-57 | the four indices and the offset add up to the low 48 bits of the address |
| PageUpdates.PutWalk | assignment11/paginglab/pagetables.c:133-137 | an entry without a table below it decides the walk of exactly the addresses that reach it |
| PageUpdates.AddWalk | assignment11/paginglab/pagetables.c:151-153 | a new empty table changes no walk |
| PageUpdates.PutDirectoryWalk | assignment11/paginglab/pagetables.c:154-156 | changing the write bit of a directory entry, the tree staying well formed, changes no walk |
| PageUpdates.AddKeepsTree | assignment11/paginglab/pagetables.c:151-153 | the tables with a new one are again an unshared tree with write bits only below write bits |
| PageUpdates.PutKeepsTree | assignment11/paginglab/pagetables.c:98-103 | the tables with one entry replaced are again such a tree |
| PageUpdates.PutAllows | assignment11/paginglab/pagetables.c:154-156 | replacing an entry changes the write bit above the table it leads to and above no other |
| PageUpdates.AddAllows | assignment11/paginglab/pagetables.c:151-153 | a new directory entry has the write bit asked for, every other one keeps its own |
| PageRuns.Run | assignment11/paginglab/pagetables.c:319-411 | over every run of map and unmap requests, each outcome, each translation, each table that exists and each directory entry's write bit is the one that the list of requests alone determines |
| PageRuns.MapImplements | assignment11/paginglab/pagetables.c:115-233 | one map call keeps the tables an implementation of the request history, and its outcome is the specified one |
| PageRuns.UnmapImplements | assignment11/paginglab/pagetables.c:242-273 | one unmap call keeps the tables an implementation of the request history |
| PageRuns.RefusedIffOverlapping | assignment11/paginglab/pagetables.c:126-130 | with no empty table left behind, a request is refused if and only if its span overlaps a mapped page; an overlap always refuses |
| PageRuns.EmptySpanRefused | assignment11/paginglab/pagetables.c:126-130 | with nothing mapped in the span, a request is refused if and only if an earlier request made a table there, found by what that request and those before it were |
| PageRuns.TabledByRequest | assignment11/paginglab/pagetables.c:147-157 | a table is on the way to an address exactly when some earlier request for a smaller page, let through so far, put it there |
| PageRuns.WidenedByRequest | assignment11/paginglab/pagetables.c:151-156 | a directory entry's write bit is set exactly if some such request that came through it asked to write |
| PageRuns.PageSizes | assignment11/paginglab/pagetables.c:133-137 | a huge page is 2^30 bytes, a large one 2^21 and a base page 2^12, at the aligned physical address below bit 48 |
| PageRuns.MapLeavesNoEmptyTable | assignment11/paginglab/pagetables.c:115-233 | mapping, successful or refused, never leaves a table without a translation below it |
| PageRuns.EmptyTableRefuses | assignment11/paginglab/pagetables.c:242-273 | after a 4K page is mapped and unmapped nothing is translated, yet a 1G mapping is refused |
| PageRuns.MapUnmapMap | assignment11/paginglab/pagetables.c:115-273 | the same by calls on a new page table: map a 4K page, unmap it, and mapping the 1G page is refused while nothing is translated |
| CacheSim.CacheSet.UpdateLru | assignment10/cachelab/csim.c:45-62 | the line moves to the end of the order; reports failure exactly when the line is not listed |
| CacheSim.CacheSet.Access | assignment10/cachelab/csim.c:64-96 | the set's replacement list makes one LRU step, and hit, miss and eviction are counted as that step says; lines, flags and order stay consistent |
| CacheSim.CacheSet.constructor | assignment10/cachelab/csim.c:19-30 | an empty set: all lines invalid, the order a permutation |
| CacheSim.Cache.AccessCache | assignment10/cachelab/csim.c:64-96 | an access hits if and only if its block was accessed before and fewer than E other blocks of its set since; every set holds the LRU list of its part of the trace |
| CacheSim.Cache.constructor | assignment10/cachelab/csim.c:14-33 | a cache of 2^s empty, disjoint sets |
| CacheSim.Simulator.Execute | assignment10/cachelab/csim.c:166-186 | a load or a store makes one access at its address, a modify two of which the second hits, anything else none; hits and misses together grow by as many, and stay what the trace determines |
| CacheSim.Simulator.Simulate | assignment10/cachelab/csim.c:166-186 | over a whole trace hits plus misses is the number of L and S lines plus twice the number of M lines, with at least one hit for each M line; it ends at the first unknown command |
| CacheSim.SecondAccessHits | assignment10/cachelab/csim.c:170-173 | an access right after one to the same address always hits |
| CacheSim.MissesFillLines | assignment10/cachelab/csim.c:71-95 | misses minus evictions is the number of valid lines |
| CacheSim.OccupiedIsValid | assignment10/cachelab/csim.c:76-82 | the number of valid flags of a set is the length of its replacement list |
| CacheSpec.ListedIffHit | assignment10/cachelab/csim.c:68-74 | finding the tag in the set is the same as a stack distance below E |
| CacheSpec.SameBlock | assignment10/cachelab/csim.c:35-43 | set index and tag together name the block, and nothing else |
| CacheSpec.AddressParts | assignment10/cachelab/csim.c:35-43 | an address at an offset of block k goes to set k modulo 2^s with the tag k divided by 2^s |
| CacheSpec.MoreWaysKeepHit | assignment10/cachelab/csim.c:64-75 | an access that hits at associativity E hits at every larger one |
| CacheSpec.MoreWaysMoreHits | assignment10/cachelab/csim.c:64-75 | for every trace the number of hits never falls when the associativity grows |
| LruSpec.HitIffNear | assignment10/cachelab/csim.c:64-96 | the tag is listed if and only if it was accessed before and fewer than E distinct tags since |
| LruSpec.LruIsEndOfStack | assignment10/cachelab/csim.c:90-95 | a set of any associativity holds the end of one common recency stack |
| LruSpec.StackAbove | assignment10/cachelab/csim.c:45-58 | above a tag on the stack lie exactly the distinct tags accessed since |
| CacheLines.HitLine | assignment10/cachelab/csim.c:69-73 | a hit keeps the arrays consistent and moves the tag to the end of the list |
| CacheLines.FillLine | assignment10/cachelab/csim.c:76-95 | filling an invalid line, or the oldest when none is left, keeps the arrays consistent and makes the LRU step |
| CacheLines.MoveKeepsPermutation | assignment10/cachelab/csim.c:45-58 | moving a line to the end keeps the order a permutation |
| CacheLines.ListedIffValid | assignment10/cachelab/csim.c:68-69 | a tag is listed if and only if a valid line holds it |
| CacheLines.ShiftAloneLoses | assignment10/cachelab/csim.c:52-55 | shifting without storing into the last slot keeps the permutation if and only if the line was last already |
| SearchTree.Explore | assignment2/tree.c:23-44 | the search ends at the position where the value is or belongs, with its parent and side |
| SearchTree.Lookup | assignment2/tree.c:89-93 | finds a node if and only if the value is a member |
| SearchTree.Insert | assignment2/tree.c:61-87 | on every tree, sorted or not: adds one node exactly when the search finds none; the result is the old tree with that leaf grafted on the side of the last node's key, so a subtree that hung there is lost, and it is the tree with the leaf where the search ended if and only if that node's key and value agree about the new one; then, in a sorted tree, the value gets the key's rank |
| SearchTree.LinkedRightly | assignment2/tree.c:61-87 | linking by the last node's key is inserting where the search ended if and only if its key and value agree |
| SearchTree.LinkPathAtEnd | assignment2/tree.c:61-87 | the new node goes below the last node of the search by value, on the side of that node's key |
| SearchTree.LeafNodes | assignment2/tree.c:77-84 | the nodes afterwards are those outside the subtree at that position, and the new one |
| SearchTree.MismatchLosesNode | assignment2/tree.c:61-93 | three insertions, the first with a key unlike its value, after which a value that was found before is not found any more |
| SearchTree.InsertedInOrder | assignment2/tree.c:66-84 | insertion keeps the search order if and only if the new value fits the gap its key belongs to |
| SearchTree.KeysAgree | assignment2/tree.c:77-84 | with key equal to value throughout, key and value comparisons agree |
| SearchTree.AgreesAtEnd | assignment2/tree.c:23-36 | key and value agree exactly when the new node is linked where the search ended |
| SearchTree.WrongSide | assignment2/tree.c:77-84 | a leaf on the wrong side of its parent breaks the search order |
| SearchTree.RightSucc | assignment2/tree.c:47-59 | finds the leftmost node right of the given one and the node that links to it |
| SearchTree.ReplaceChild | assignment2/tree.c:95-101 | the link that led to the old child leads to the new one, the other stays |
| SearchTree.LiftSuccessor | assignment2/tree.c:143-165 | the successor takes the node's place: same other values in order, same other nodes, none shared |
| SearchTree.Delete | assignment2/tree.c:103-173 | on every tree the result has the shape the deletion rule gives; from a sorted one it is a search tree of exactly the other values, on exactly the other nodes |
| SearchTree.DeletedAt | assignment2/tree.c:103-173 | on every tree, deleting a value replaces the subtree at the end of its search by that subtree without its root, and changes nothing when the search fails |
| SearchTree.LeafAt | assignment2/tree.c:61-87 | on every tree, adding a leaf by comparisons on the way down is grafting it where the search ends |
| SearchTree.LeftmostAt | assignment2/tree.c:47-59 | the end of the leftward path is the leftmost node, and taking it out promotes its right child |
| SearchTree.SuccessorMovesUp | assignment2/tree.c:143-165 | a node with two children gives its place to the next larger value, from the right; the left subtree stays |
| SearchTree.Run | assignment2/tree.c:184-204 | over every sequence of insertions and deletions the tree is the set they describe, in order, and the root is null exactly when that set is empty |
| SearchTree.FoundIffMember | assignment2/tree.c:27-36 | where the search ends decides membership |
| SearchTree.Link | assignment2/tree.c:95-101 | overwriting one link grafts the new subtree and leaves the rest of the tree represented |
| QuickSort.Machine.Swap | assignment4/sort.S:4-9 | the two words are exchanged, and ret takes exactly the pushed return address |
| QuickSort.Machine.Take | assignment4/sort.S:30-44 | the words are exchanged and every register the loop needs, and the stack, are as before |
| QuickSort.Machine.Partition | assignment4/sort.S:11-54 | the segment is rearranged around its last word, which ends where rax points: nothing larger before it, nothing as small after it, nothing outside touched |
| QuickSort.Machine.Quicksort | assignment4/sort.S:57-83 | the closed segment is sorted into a rearrangement of itself, no word outside is touched, the stack and both pointers are restored, and it terminates |
| QuickSort.Machine.SortBefore | assignment4/sort.S:68-73 | what lies before the pivot is sorted and the three stack slots are as before |
| QuickSort.Machine.SortBehind | assignment4/sort.S:75-78 | what lies behind the pivot is sorted and the three stack slots are as before |
| QuickSort.Machine.Leave | assignment4/sort.S:80-83 | the three slots go back into the registers they came from, and ret takes the return address below them |
| QuickSort.HalvesSorted | assignment4/sort.S:67-77 | sorting both sides of a partitioned segment sorts all of it |
| QuickSort.ProgressStep | assignment4/sort.S:23-46 | one step of the partition loop keeps the two regions apart and the segment a rearrangement |
| Segments.RearrangedWithin | assignment4/sort.S:67-77 | a rearrangement of a part is a rearrangement of the whole |
| Segments.CameFrom | assignment4/sort.S:4-9 | every element of a rearranged segment was in the segment before |
| HeapSort.MySort | assignment2/students.c:150-159 | for every total-preorder comparator the result is ordered and a permutation |
| HeapSort.BuildMaxHeap | assignment2/students.c:122-142 | the prefix becomes a max-heap and a rearrangement of itself, nothing behind it changes, and both loops end |
| HeapSort.Swap | assignment2/students.c:106-115 | exactly the two elements are exchanged |
| HeapSort.SiftStep | assignment2/students.c:135-139 | one sift-up step moves the only possible violation to the parent |
| HeapSort.RootIsLargest | assignment2/students.c:118-121 | the root of a max-heap is a largest element |
| HeapSort.HeapByChildren | assignment2/students.c:122-142 | the max-heap is the one in which the children of p sit at 2p + 1 and 2p + 2, and no other |
| HeapSort.RootFinished | assignment2/students.c:154-157 | the extracted root is in its final place |
| HeapSort.StillFinished | assignment2/students.c:156 | rebuilding the prefix leaves the finished part in order and above the prefix |
| Sampler.KBest.AddSample | assignment3/fcyc.c:67-88 | after every sample the array holds the k best of all samples seen |
| Sampler.KBest.InsertionSort | assignment3/fcyc.c:83-87 | the loop puts the last value in its place among the sorted ones before it |
| Sampler.BestAreSmallest | assignment3/fcyc.c:67-88 | the values kept are the k smallest of the whole stream as a multiset, in order: what was left out is no smaller |
| Sampler.FirstIsMinimum | assignment3/fcyc.c:161 | the first of the best is the minimum of all samples |
| Sampler.KBest.HasConverged | assignment3/fcyc.c:93-98 | true exactly when k samples were taken and the best and the k-th best agree within the factor |
| Sampler.ConvergedMeans | assignment3/fcyc.c:93-98 | that is: at least k samples lie within the factor of the smallest of all |
| Sampler.Fcyc | assignment3/fcyc.c:129-168 | returns the minimum of the samples taken; takes at least one and at most max(1, maxsamples), and stops at the first that converges |
| MatMul.Mmul | assignment9/matmul-solution/mmul.c:68-204 | for every size the result is the product with the original B, and B is left transposed |
| MatMul.OrigMmul | assignment9/matmul-solution/mmul.c:41-66 | the result is the textbook product |
| MatMul.Compare | assignment9/matmul-solution/mmul.c:253-261 | both versions return the same matrix |
| MatMul.ProductIsUnique | assignment9/matmul-solution/mmul.c:53-61 | only one matrix is the product |
| MatMul.UnitIsNeutral | assignment9/matmul-solution/mmul.c:53-61 | the unit matrix is neutral on both sides |
| MatMul.Transpose | assignment9/matmul-solution/mmul.c:84-93 | the in-place exchange of all pairs above the diagonal transposes the matrix |
| MatMul.DotProduct | assignment9/matmul-solution/mmul.c:104-118 | eight products at a time and then the rest add up to the dot product, for every size |
| MatMul.DotIsProduct | assignment9/matmul-solution/mmul.c:104-118 | the dot product with a row of the transpose is the product with a column of the original |
| MatMul.FillCell | assignment9/matmul-solution/mmul.c:102-121 | each cell receives the product's value and no other cell changes |

## Left out

- Allocators.Allocator.MmRealloc: the loop at mm.c:438-440, once entered, is the outcome `Loops`; the heap is not described any further, because the call never returns.
- Allocators.Allocator.MmMalloc: what becomes of the heap after a request that is not `Representable`.
- MatMul.FillCell: the four unrolled copies of the row-by-column loop and the loop for the columns left over (mmul.c:102-190) each call this one method.
- PageTables.PageTable.Descend: the descent that `map`, `map_large` and `map_huge` each write out level by level (pagetables.c:119-122, 151-156) is one method.
- Allocators.Allocator.MapToFreeListIndex: the floating-point step (mm.c:97-98) is a parameter of which only monotonicity is assumed.
- Allocators.Allocator.MmInit: the 196 list heads are a field of the model, not words of the heap, although their space is reserved.
- Allocators.Allocator.MemCpy: copies words and a merged last word instead of single bytes; the result is the same.
- SoftFloat.InternalRef.ShiftRightMantissa: a shift by 0, whose intermediate shift by -1 C leaves undefined (lib.c:147-148), is taken as no shift and no rounding.
- Sampler.Fcyc: the timed function and the cycle counter are a stream of measurements; the compensating branch runs the same loop.
- SearchTree.Delete: the exits that relink the parent, one per case (tree.c:112-172), share one `Relink` after the cases; freed nodes leave the tree's set of nodes; the release of their memory itself is not modelled.
- Exception flags, and the union behind `fp_encode` and `fp_decode` (lib.c:95-120), which are modelled on the 32-bit word.
- The allocator's debugging walk `mm_check`, the trace driver and the timers.
- `free_pagetable` and `dump_pagetable`, page-table bits other than present, write, page size and base, and allocation failure.
- Reading trace and command-line arguments in the cache simulator, and 32-bit wrap-around of its counters.
- Wrap-around of `int` in matrix multiplication and of `size_t` in sorting an empty array (students.c:154).
- Return addresses are symbolic in the quicksort machine, and its stack is unbounded.
- The remaining assignments of the course: bit puzzles, the binary labs, the device assignment, transposition, string and file exercises.
