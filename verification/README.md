# Models and proofs of the systems labs

The labs are separate programs; each is modelled in its own modules.

`Partition` is the theory of a stretch of memory cut into blocks that both allocators share, with the first address
and the minimum size as parameters; `Lists` holds the removal of elements from their free lists.

**Explicit-free-list allocator** (`WordMemory`, `FreeChain`, `BlockMap`, `HeapSpec`, `Allocator`, `HeapTheorems`,
`Driver`, `FreeOrder`). The heap is an array of 32-bit words addressed by byte offset from its start; NULL is 0. `Heap`
is the allocator itself, written word by word into that array. Ghost fields name the partition into blocks, the order of
the free list and the requested bytes of every live pointer; `Valid` ties them to memory. Every operation states
the new partition, list and contents as functions of the old ones, and `HeapTheorems` proves what those functions
mean. `Driver` is the correctness loop of the malloc driver over whole traces; its verdict is computed on layouts.
`FreeOrder` settles when an allocation followed by its release can be noticed: the partition always comes back, but the
block now comes first in the list, so later requests see a difference exactly when it did not come first before.
Where comments and code disagree the code is followed: insertion is last-in first-out although the comment says
address order, and a block is split when more than 24 bytes remain although the comment says 16.

**Coalescer with preceding-used tags** (`RunHeap`, `RunAllocator`). 64-bit words; used blocks have no footer, so the
heap is read through the preceding-used bit. The two loops that merge runs of any length are loops here too. The
page size is a parameter, a multiple of 8 of at least 32 bytes. `|` of a size and tag bits is written `+`, sizes
being multiples of 8.

**Cache simulator** (`RecencyList`, `CacheSpec`, `CacheSim`). `Simulator` is the array of lines with timestamps. It
represents, per set, a list of tags ordered by recency, and the stack-algorithm theorems are about those lists. The
set index is `(address / 2^b) mod 2^s`, the tag `address / 2^(b+s)`, which is what the macros compute on 32-bit words
(`MacrosExact`), for `s >= 1`, `s + b < 32`, `E >= 1` and at most INT_MAX counted operations.

**Semaphore protocols** (`ThreadCounts`, `BoundedBuffer`, `ReadersWriters`). Any number of threads with program
counters; every P, V and access to shared data is one step, and theorems are about every schedule. P waits by not
being enabled. Besides what the cells of the buffer see, logs say which thread handed in, stored, loaded and got back
which item.

**Shell** (`JobTable`, `ShellJobs`, `CommandLine`). `JobList` is the array of job slots with its loops. `ShellJobs`
interleaves the main program with the SIGCHLD handler and with children that stop, continue and die at any time,
except where signals are blocked. Lookup, the read of the pid and the state write of fg and bg are separate steps. That
jobs and children stay in step depends on one thing only, room in the list when a job is entered (`ListedExact`); that
the foreground stays in order, only on fg writing the state of the job it looked up (`OrderlyExact`). With room in the
list, only a late announcement uses a NULL job (`CrashExact`). A pid that is read late is 0 and makes fg wait forever.
`StepExact` says which steps break the whole invariant. A job in the foreground holds the shell until the handler is
told that it died or stopped (`ForegroundHolds`, `ReapReleases`). `CommandLine` is the in-place tokenizer, with pointers
as indices into the buffer.

**Buffered reader** (`RioReader`). A descriptor has a stream and a finite script of what its next reads do (be
interrupted, fail, return fewer bytes); results are proved for every stream and every script. `Serve` makes any list of
calls on one reader.

**Allocation tracer** (`MemList`, `MemTrace`). The linked list of items in the heap, and the wrappers around an
allocator that always succeeds and may return any address that is not live. Its `Free` and `Realloc` require a live
pointer, so verifying the wrappers shows that they never pass on another one; `Session` is any list of client calls.
`realloc(NULL, n)` is logged as an illegal free, as in the code.

**Transpose** (`Transpose`). The three loop nests, with the cells written counted by a ghost multiset.

## Model

| member | source | states |
|---|---|---|
| `Allocator.AdjustedSizeExact` | sp_03_malloclab/src/mm-2014-17831.c:101-108 | the rounded size is the least multiple of 8 that is at least 16 and covers request and tags, if and only if size + 15 does not wrap; otherwise it is below the minimum block |
| `Allocator.AdjustedSizeBounds` | sp_03_malloclab/src/mm-2014-17831.c:101-108 | aligned, at least 16, and room for 8 bytes of tags |
| `HeapSpec.UnpackTag` | sp_03_malloclab/src/mm-2014-17831.c:52-61 | size and allocation bit come back out of a packed tag |
| `Allocator.Heap.constructor` | sp_03_malloclab/src/memlib.c:25-35 | a heap area of fixed size, empty |
| `Allocator.Heap.LivePayloads` | sp_03_malloclab/src/mm-2014-17831.c:166-194 | in every state between calls the live payloads are 8-aligned, inside the heap and pairwise disjoint |
| `Allocator.Heap.Put` | sp_03_malloclab/src/mm-2014-17831.c:55-57 | one word changes and no other |
| `Allocator.Heap.Unlink` | sp_03_malloclab/src/mm-2014-17831.c:364-375 | exactly the pointer words of the neighbours change, also when the node is the last |
| `FreeChain.ChainWithout` | sp_03_malloclab/src/mm-2014-17831.c:364-375 | unlinking a node leaves a well-formed doubly linked list of the others in order |
| `Allocator.Heap.RemoveBlock` | sp_03_malloclab/src/mm-2014-17831.c:364-375 | the list loses that block and only pointer words change |
| `Allocator.Heap.FindPlace` | sp_03_malloclab/src/mm-2014-17831.c:339-346 | the search stops at the prologue for every block above it, so insertion is last-in first-out |
| `FreeChain.ChainWith` | sp_03_malloclab/src/mm-2014-17831.c:348-358 | linking a node behind the prologue leaves a well-formed doubly linked list |
| `Allocator.Heap.InsertBlock` | sp_03_malloclab/src/mm-2014-17831.c:339-359 | the block becomes the first of the list |
| `HeapSpec.TagBefore` | sp_03_malloclab/src/mm-2014-17831.c:68-69 | the word below a block leads to its predecessor and tells whether it is free; the zero word at offset 24 makes the first block its own predecessor |
| `HeapSpec.TagAfter` | sp_03_malloclab/src/mm-2014-17831.c:67-68 | the header after a block tells whether a free block follows; the epilogue says no |
| `Allocator.Heap.MergeNext` | sp_03_malloclab/src/mm-2014-17831.c:264-271 | case 2: the following block leaves the list and the two tags of the joint block are written |
| `Allocator.Heap.MergePrev` | sp_03_malloclab/src/mm-2014-17831.c:273-280 | case 3: the same with the preceding block |
| `Allocator.Heap.MergeBoth` | sp_03_malloclab/src/mm-2014-17831.c:282-291 | case 4: both neighbours are absorbed |
| `Allocator.Heap.MergeAround` | sp_03_malloclab/src/mm-2014-17831.c:255-291 | all four cases: the partition becomes the coalesced one |
| `Allocator.Heap.Coalesce` | sp_03_malloclab/src/mm-2014-17831.c:255-296 | the freed block and its free neighbours become one free block at the head of the list; no two adjacent free blocks remain and every live byte is kept |
| `HeapSpec.CoalescedNeighbours` | sp_03_malloclab/src/mm-2014-17831.c:255-296 | coalescing restores that no two adjacent blocks are free |
| `HeapSpec.CoalescedLinks` | sp_03_malloclab/src/mm-2014-17831.c:255-296 | the new list holds exactly the free blocks, once each |
| `HeapSpec.CoalescedLive` | sp_03_malloclab/src/mm-2014-17831.c:255-296 | no live block lies in the coalesced run |
| `BlockMap.Reshape` | sp_03_malloclab/src/mm-2014-17831.c:255-291 | boundary tags record the new partition when only words of the changed region and pointer words were written |
| `HeapSpec.PayloadKept` | sp_03_malloclab/src/mm-2014-17831.c:242-296 | payload bytes outside the changed region are not written |
| `Allocator.Heap.Free` | sp_03_malloclab/src/mm-2014-17831.c:242-249 | frees and coalesces; every other live pointer keeps its bytes; the partition and the list are given exactly |
| `Allocator.Heap.Sbrk` | sp_03_malloclab/src/memlib.c:58-69 | moves the break up, or fails and changes nothing |
| `Allocator.Heap.ExtendHeap` | sp_03_malloclab/src/mm-2014-17831.c:141-160 | grows by an even number of words, joins a free last block, or returns NULL with nothing changed |
| `Allocator.Heap.TagNewBlock` | sp_03_malloclab/src/mm-2014-17831.c:153-156 | header, footer and epilogue of the new block |
| `Allocator.Heap.FindFit` | sp_03_malloclab/src/mm-2014-17831.c:199-210 | answers block k of the list when it is large enough and no earlier one is; 0 exactly when none is |
| `HeapSpec.FirstFitFound` | sp_03_malloclab/src/mm-2014-17831.c:199-210 | the search finds the first listed block that is large enough, or nothing because there is none |
| `HeapTheorems.FitExists` | sp_03_malloclab/src/mm-2014-17831.c:199-210 | a fit is found if and only if some free block of the heap is large enough |
| `Allocator.Heap.PlaceSplit` | sp_03_malloclab/src/mm-2014-17831.c:220-231 | cuts the block and puts the remainder on the list |
| `Allocator.Heap.PlaceWhole` | sp_03_malloclab/src/mm-2014-17831.c:233-236 | hands out the whole block |
| `Allocator.Heap.Place` | sp_03_malloclab/src/mm-2014-17831.c:216-237 | splits exactly when more than 24 bytes remain (the comment says 16); the new partition and list are given exactly and the heap invariant holds |
| `HeapTheorems.SplitWellFormed` | sp_03_malloclab/src/mm-2014-17831.c:220-231 | after a split the heap tiles, has no two adjacent free blocks, and the list is exact |
| `HeapTheorems.PlaceWellFormed` | sp_03_malloclab/src/mm-2014-17831.c:216-237 | the same for both branches of place |
| `HeapTheorems.PlaceExact` | sp_03_malloclab/src/mm-2014-17831.c:216-237 | above 24 bytes of remainder exactly the bytes asked for are taken and the remainder heads the list, otherwise the whole block; no other block changes |
| `Allocator.Heap.FindOrExtend` | sp_03_malloclab/src/mm-2014-17831.c:179-191 | first fit or growth; succeeds if and only if a fit exists or the heap can still grow enough |
| `Allocator.Heap.Malloc` | sp_03_malloclab/src/mm-2014-17831.c:166-194 | 0 for size 0; otherwise succeeds if and only if a fit or room to grow exists, and on failure nothing changes; the first listed block that is large enough is the answer and the heap does not grow then; on success a new live pointer is added and all other live bytes are kept |
| `HeapTheorems.MallocGrowth` | sp_03_malloclab/src/mm-2014-17831.c:179-189 | an allocation succeeds if and only if a free block is large enough or the heap has room for the block size or 4096 bytes more, whichever is larger; it grows, by exactly that, only in the second case |
| `HeapTheorems.MallocTakesFirst` | sp_03_malloclab/src/mm-2014-17831.c:199-210 | with a large enough listed block the first of them is handed out and the heap stays |
| `HeapTheorems.MallocResult` | sp_03_malloclab/src/mm-2014-17831.c:166-194 | the block handed out was free, and is between the adjusted size and 24 bytes more |
| `HeapTheorems.SplitRun` | sp_03_malloclab/src/mm-2014-17831.c:255-271 | the first part of a split block, free again, has the remainder behind it and nothing free before it; joined they are the block that was split |
| `HeapTheorems.SplitThenFree` | sp_03_malloclab/src/mm-2014-17831.c:216-249 | freeing a block that was split off joins it with its remainder again, which leaves the list |
| `HeapTheorems.PlaceThenFree` | sp_03_malloclab/src/mm-2014-17831.c:216-296 | freeing what was just placed restores blocks, sizes and allocation bits, split or not, and puts the block at the front of the list |
| `HeapTheorems.MallocThenFree` | sp_03_malloclab/src/mm-2014-17831.c:166-249 | malloc with a fit followed by free restores the partition and the heap size and moves the block to the front of the list; nothing at all has changed if and only if it was there before |
| `HeapTheorems.BlocksTileHeap` | sp_03_malloclab/src/mm-2014-17831.c:113-160 | stepping through the heap visits every block once; sizes add up to the heap size less 32 |
| `HeapTheorems.WalkFrom` | sp_03_malloclab/src/mm-2014-17831.c:67-69 | the same from any block on |
| `Allocator.Heap.MemCpy` | sp_03_malloclab/src/mm-2014-17831.c:330 | bytes are copied one by one between disjoint areas |
| `Allocator.Heap.CopyPayload` | sp_03_malloclab/src/mm-2014-17831.c:322-330 | the copy, which may read past the old payload into the next tags, changes only the new payload |
| `Allocator.Heap.Move` | sp_03_malloclab/src/mm-2014-17831.c:321-333 | malloc, copy, free: the first min(old, new) bytes arrive, the old block survives a failure |
| `Allocator.Heap.Realloc` | sp_03_malloclab/src/mm-2014-17831.c:303-334 | size 0 frees; NULL allocates; otherwise contents up to the smaller size are kept; a failing call changes nothing |
| `Allocator.Heap.Store` | sp_03_malloclab/src/mm-2014-17831.c:330 | a client write to a live byte changes that byte of that pointer and keeps the heap invariant |
| `WordMemory.WithByte` | sp_03_malloclab/src/mm-2014-17831.c:56-57 | writing one byte of a little-endian word leaves its other bytes |
| `Allocator.Heap.ResetBrk` | sp_03_malloclab/src/memlib.c:48-51 | the break goes back to the start |
| `Allocator.Heap.MmInit` | sp_03_malloclab/src/mm-2014-17831.c:113-135 | succeeds if and only if 4128 bytes fit, and leaves one free block of 4096 bytes |
| `Driver.AddRange` | sp_03_malloclab/src/mdriver.c:382-430 | accepts a range exactly when it is aligned, inside the heap and neither end falls in a recorded range |
| `Driver.OverlapsExact` | sp_03_malloclab/src/mdriver.c:407-417 | the overlap test is right except for a new range that reaches beyond an older one on both sides |
| `Driver.RemoveRange` | sp_03_malloclab/src/mdriver.c:435-450 | drops the range that starts there |
| `Driver.Admissible` | sp_03_malloclab/src/mdriver.c:391-417 | a block of the allocator always passes the range check |
| `Driver.CheckCopied` | sp_03_malloclab/src/mdriver.c:654-662 | the comparison through signed chars succeeds if and only if the low byte of the id is below 128 |
| `Driver.DoAlloc` | sp_03_malloclab/src/mdriver.c:605-631 | a malloc request succeeds if and only if the allocator can serve it, never fails the range check, leaves the block filled and the layout the allocator gives; a failing one changes nothing |
| `Driver.DoResize` | sp_03_malloclab/src/mdriver.c:633-668 | the same for a realloc request; contents are found preserved if and only if the low byte of the id is below 128 |
| `Driver.DoRelease` | sp_03_malloclab/src/mdriver.c:670-676 | a free request drops the range and frees the block |
| `Driver.DoRequest` | sp_03_malloclab/src/mdriver.c:599-680 | one request: the run goes on with the verdict of the rest of the trace, or stops with the right one |
| `Driver.Start` | sp_03_malloclab/src/mdriver.c:588-596 | starting over succeeds if and only if 4128 bytes fit, and gives one free block |
| `Driver.EvalMmValid` | sp_03_malloclab/src/mdriver.c:578-686 | over every legal trace the verdict is exactly the one computed on layouts: no range is ever refused, memory runs out only when the heap cannot be set up or an allocation of the trace has neither a fit nor room to grow, and contents differ first at the first resize of an id whose low byte is 128 or more; after a run that passes, the live blocks are exactly those of the ids allocated and not released, one each, with the last requested size and filled with the id |
| `Driver.SignedComparisonFails` | sp_03_malloclab/src/mdriver.c:654-662 | allocating and resizing one byte under id 128 is reported as not preserved in every heap of at least 4128 bytes |
| `FreeOrder.RoomPlaced` | sp_03_malloclab/src/mm-2014-17831.c:216-237 | how placing changes the number of blocks of one size that the free list has room for |
| `FreeOrder.FillVerdict` | sp_03_malloclab/src/mdriver.c:605-631 | in a heap that cannot grow, a trace of n requests of one size passes if and only if the free list has room for n |
| `FreeOrder.PairVerdict` | sp_03_malloclab/src/mdriver.c:605-676 | an allocation served by a fit and then released only moves that block to the front of the list: the rest of the trace has the verdict it has from there |
| `FreeOrder.Distinguish` | sp_03_malloclab/src/mdriver.c:605-676 | if the block was not the first, a trace that passes without the two requests runs out of memory with them |
| `FreeOrder.UnseenExact` | sp_03_malloclab/src/mdriver.c:605-676 | so the two requests leave the verdict of every continuation, in every size of heap, as it was if and only if the block is the first of the free list |
| `RunHeap.UnpackTag` | sp_03_malloclab/lab5/mm.c:100-125 | size and both tag bits come back out of a header |
| `RunHeap.ChainPush` | sp_03_malloclab/lab5/mm.c:173-181 | pushing a block leaves a well-formed doubly linked list |
| `RunHeap.ChainWithout` | sp_03_malloclab/lab5/mm.c:184-203 | removing a node, the head included, leaves a well-formed list of the others in order |
| `RunHeap.BoundaryBefore` | sp_03_malloclab/lab5/mm.c:217-231 | a clear preceding-used bit leads through the boundary tag to the free block before |
| `RunHeap.HeaderParts` | sp_03_malloclab/lab5/mm.c:64-72 | a header gives size, use and whether the preceding block is used |
| `RunHeap.RunUnique` | sp_03_malloclab/lab5/mm.c:206-266 | the maximal run of free blocks around a block is unique |
| `Partition.FuseTiling` | sp_03_malloclab/lab5/mm.c:250-265 | the fused partition still covers the same bytes without gap or overlap |
| `RunHeap.FuseShape` | sp_03_malloclab/lab5/mm.c:254-261 | one header and one boundary tag written make memory record the fused partition; the next block keeps a correct preceding-used bit |
| `RunHeap.FuseBefore` | sp_03_malloclab/lab5/mm.c:254-261 | no block outside the run gains or loses a free predecessor |
| `RunHeap.FuseNeighbours` | sp_03_malloclab/lab5/mm.c:206-266 | the fused block has no free neighbour |
| `RunHeap.FreeBytesKept` | sp_03_malloclab/lab5/mm.c:206-266 | coalescing keeps the total of free bytes |
| `RunHeap.GrownShape` | sp_03_malloclab/lab5/mm.c:281-298 | the old footer becomes the header of the new block and a new footer follows |
| `RunAllocator.PagesLeast` | sp_03_malloclab/lab5/mm.c:270-274 | growth is a multiple of the page size, the least one that covers the request |
| `RunAllocator.PageHeap.SearchFreeList` | sp_03_malloclab/lab5/mm.c:158-170 | first fit; NULL if and only if no listed block is large enough |
| `RunAllocator.PageHeap.InsertFreeBlock` | sp_03_malloclab/lab5/mm.c:173-181 | the block becomes the head; only pointer words change |
| `RunAllocator.PageHeap.RemoveFreeBlock` | sp_03_malloclab/lab5/mm.c:184-203 | the block leaves the list; only pointer words change |
| `RunAllocator.PageHeap.AbsorbPreceding` | sp_03_malloclab/lab5/mm.c:215-233 | the backward loop stops at the start of the run, having unlisted every block it passed |
| `RunAllocator.PageHeap.AbsorbFollowing` | sp_03_malloclab/lab5/mm.c:234-246 | the forward loop stops at the end of the run, having unlisted every block it passed |
| `RunAllocator.ListJoined` | sp_03_malloclab/lab5/mm.c:217-252 | what the two loops and the last removal take off the list is exactly the run |
| `RunAllocator.ListGrown` | sp_03_malloclab/lab5/mm.c:300-304 | after growth the list is the old one less the blocks joined, with the last block in front |
| `RunAllocator.PageHeap.ReplaceRun` | sp_03_malloclab/lab5/mm.c:250-264 | tags of the run are written and it becomes the head of the list |
| `RunAllocator.PageHeap.CoalesceFreeBlock` | sp_03_malloclab/lab5/mm.c:206-266 | for a run of any length: one free block spanning exactly the maximal run, the list loses its members and gains it at the head, or stays as it is if there was nothing to join; tags are right, and no word of a used block changes |
| `RunAllocator.CoalesceSettles` | sp_03_malloclab/lab5/mm.c:206-266 | if only the run had adjacent free blocks, none are left |
| `RunAllocator.PageHeap.Sbrk` | sp_03_malloclab/lab5/memlib.c:55-65 | moves the break up, or fails and changes nothing |
| `RunAllocator.PageHeap.TagNewSpace` | sp_03_malloclab/lab5/mm.c:281-298 | the new block inherits the preceding-used bit of the old footer |
| `RunAllocator.PageHeap.RequestMoreSpace` | sp_03_malloclab/lab5/mm.c:269-304 | grows by the page multiple; the last block is then free, not preceded by a free block, at the head of the list, and large enough for the request, so a search finds it; used words are kept; a failing mem_sbrk changes nothing |
| `RunAllocator.LastBlock` | sp_03_malloclab/lab5/mm.c:300-304 | the run around the new space reaches to the new end of the heap |
| `RunAllocator.GrowthSettles` | sp_03_malloclab/lab5/mm.c:269-304 | a heap without adjacent free blocks stays one |
| `RunAllocator.PageHeap.MmInit` | sp_03_malloclab/lab5/mm.c:308-348 | one free block of 32 bytes between the head word and the footer |
| `CacheSpec.BlockParts` | sp_04_cachelab/csim.c:45-46 | tag and set index are quotient and remainder of the block number by the number of sets |
| `CacheSpec.MacrosExact` | sp_04_cachelab/csim.c:45-46 | for every 32-bit address the shifts of the two macros, their counts taken modulo 32, give that set index and tag |
| `CacheSpec.SameBlock` | sp_04_cachelab/csim.c:45-46 | two addresses agree in set and tag if and only if they lie in the same block |
| `CacheSim.HitStep` | sp_04_cachelab/csim.c:143-151 | refreshing the timestamp of a line moves its tag to the front of the recency list |
| `CacheSim.MissStep` | sp_04_cachelab/csim.c:169-189 | overwriting the oldest or an empty line puts the tag in front and drops the last one if the set was full |
| `CacheSim.OldestIsLast` | sp_04_cachelab/csim.c:159-166 | the line with the least timestamp holds the least recently used tag |
| `CacheSim.FullIffAllValid` | sp_04_cachelab/csim.c:153-158 | a set has no empty line if and only if its recency list has E entries |
| `CacheSim.Simulator.constructor` | sp_04_cachelab/csim.c:91-95 | an empty cache represents the empty history |
| `CacheSim.Simulator.GetCache` | sp_04_cachelab/csim.c:130-190 | one access: lines and counters represent the history extended by it |
| `CacheSim.Simulator.Step` | sp_04_cachelab/csim.c:102-117 | a modify is two accesses to its address under one timestamp, a load or store one, an instruction fetch none |
| `CacheSim.Simulator.Run` | sp_04_cachelab/csim.c:102-120 | over every trace hits and evictions are those of LRU sets; hits + misses = L + S + 2 M; hits are at least M; evictions = misses less the valid lines at the end |
| `CacheSpec.AccessCount` | sp_04_cachelab/csim.c:108-116 | loads and stores count one access, modifies two |
| `CacheSpec.ModifiesHit` | sp_04_cachelab/csim.c:108-110 | the store of every modify hits |
| `CacheSpec.Snoc` | sp_04_cachelab/csim.c:130-190 | how hits, evictions and every set change with one more access |
| `CacheSpec.EvictionsAreMissesLessResident` | sp_04_cachelab/csim.c:169-189 | evictions are misses less resident lines |
| `RecencyList.LruIsStackPrefix` | sp_04_cachelab/csim.c:130-190 | an LRU set of E lines holds the E most recently used tags |
| `RecencyList.Inclusion` | sp_04_cachelab/csim.c:130-190 | a set of fewer lines always holds a prefix of what a larger one holds |
| `CacheSpec.HitsGrowWithLines` | sp_04_cachelab/csim.c:102-190 | for the same trace, hits never decrease as E grows |
| `RecencyList.ReuseDistance` | sp_04_cachelab/csim.c:130-190 | a tag is held if and only if fewer than E other tags were used since its last use |
| `CacheSpec.CompetitorTags` | sp_04_cachelab/csim.c:45-46 | within one set, tags stand one to one for the blocks congruent modulo 2^s |
| `CacheSpec.HitIffReused` | sp_04_cachelab/csim.c:130-190 | an access hits if and only if its block was accessed before and fewer than E other blocks with a number congruent to its own modulo 2^s since |
| `BoundedBuffer.CountsNext` | sp_06_proxylab/proxylab-handout/sbuf.c:22-38 | every step of every thread keeps the semaphore counts |
| `BoundedBuffer.ContentsNext` | sp_06_proxylab/proxylab-handout/sbuf.c:22-38 | every step keeps each unread item in its cell |
| `BoundedBuffer.StoreIsFree` | sp_06_proxylab/proxylab-handout/sbuf.c:25 | a store goes to a cell different from the cell of every unread item |
| `BoundedBuffer.LoadIsWritten` | sp_06_proxylab/proxylab-handout/sbuf.c:34 | a load reads the oldest item written and not yet read |
| `BoundedBuffer.InvRun` | sp_06_proxylab/proxylab-handout/sbuf.c:9-38 | the invariant holds after every schedule of any number of threads |
| `BoundedBuffer.ReadIsPrefixOfWritten` | sp_06_proxylab/proxylab-handout/sbuf.c:22-38 | items read are a prefix of items written |
| `BoundedBuffer.MarksExact` | sp_06_proxylab/proxylab-handout/sbuf.c:25-34 | what is stored is what the storing thread carried, and what a load reads is what its thread has got afterwards |
| `BoundedBuffer.CallsKeepItems` | sp_06_proxylab/proxylab-handout/sbuf.c:22-38 | in every run, for every thread: the items it stored are those it called sbuf_insert with, in order, less the one still in hand; the items sbuf_remove returned to it are those it loaded, in order, less the one not yet returned |
| `BoundedBuffer.LogsAreHistories` | sp_06_proxylab/proxylab-handout/sbuf.c:22-38 | the items stored and loaded by all threads are those the cells saw written and read |
| `BoundedBuffer.ItemsConserved` | sp_06_proxylab/proxylab-handout/sbuf.c:22-38 | in every run, as often as an item was handed in it is still carried, lies unread, is being brought back, or was returned |
| `BoundedBuffer.Conservation` | sp_06_proxylab/proxylab-handout/sbuf.c:22-38 | slots + items + calls in flight = n |
| `BoundedBuffer.MutualExclusion` | sp_06_proxylab/proxylab-handout/sbuf.c:24-26 | one thread at a time between P and V of mutex |
| `BoundedBuffer.SomeStepEnabled` | sp_06_proxylab/proxylab-handout/sbuf.c:22-38 | with n >= 1 a pending insert and a pending remove are never stuck together |
| `BoundedBuffer.SharedBuffer.constructor` | sp_06_proxylab/proxylab-handout/sbuf.c:9-16 | the initial state, for any contents of the cells |
| `BoundedBuffer.SharedBuffer.StartInsert` | sp_06_proxylab/proxylab-handout/sbuf.c:22 | a thread outside any call begins an insert |
| `BoundedBuffer.SharedBuffer.StartRemove` | sp_06_proxylab/proxylab-handout/sbuf.c:30 | a thread outside any call begins a remove |
| `BoundedBuffer.SharedBuffer.Step` | sp_06_proxylab/proxylab-handout/sbuf.c:22-38 | the steps on the shared structure in place are those of Next |
| `ReadersWriters.InvNext` | sp_06_proxylab/proxylab-handout/proxy.c:174-195 | every step keeps the semaphore counts and the readers' hold on w_mutex |
| `ReadersWriters.InvRun` | sp_06_proxylab/proxylab-handout/proxy.c:170-306 | so does every interleaving of any number of threads |
| `ReadersWriters.WriterExcludesAll` | sp_06_proxylab/proxylab-handout/proxy.c:286-305 | a writer at the list excludes every reader and every other writer |
| `ReadersWriters.SemaphoreTaken` | sp_06_proxylab/proxylab-handout/proxy.c:174-178 | w_mutex is 0 while anyone is at the list |
| `ReadersWriters.ReadCountExact` | sp_06_proxylab/proxylab-handout/proxy.c:175-192 | read_cnt is the number of readers between increment and decrement |
| `ReadersWriters.EachCallOnce` | sp_06_proxylab/proxylab-handout/proxy.c:170-306 | in every run each reader searches once, each object found is served once and each writer appends once, unless it is still on the way |
| `ReadersWriters.SomeStepEnabled` | sp_06_proxylab/proxylab-handout/proxy.c:170-306 | while a call is under way some thread can step |
| `ReadersWriters.UpdateSemaphoreDrifts` | sp_06_proxylab/proxylab-handout/proxy.c:182-189 | u_mutex is one higher for every hit served, because it is released twice |
| `ReadersWriters.OneServerAtFirst` | sp_06_proxylab/proxylab-handout/proxy.c:182-189 | it excludes in every run in which no hit has been served |
| `ReadersWriters.ExclusionExact` | sp_06_proxylab/proxylab-handout/proxy.c:182-189 | u_mutex excludes in all runs with k hits served if and only if k is 0 |
| `ReadersWriters.SomeServed` | sp_06_proxylab/proxylab-handout/proxy.c:182-189 | every number of hits can be served with their readers still inside |
| `ReadersWriters.TwoServers` | sp_06_proxylab/proxylab-handout/proxy.c:182-189 | for every positive number of hits served, a run in which two readers then serve hits at once |
| `JobTable.JobList.InitJobs` | sp_02_shelllab/tsh.c:494-499 | all slots clear |
| `JobTable.JobList.MaxJid` | sp_02_shelllab/tsh.c:502-510 | the largest job id in use |
| `JobTable.JobList.AddJob` | sp_02_shelllab/tsh.c:513-536 | takes the first free slot; the next id is one more, or 1 above 16; fails exactly for pid < 1 or a full list |
| `JobTable.JobList.DeleteJob` | sp_02_shelllab/tsh.c:539-554 | clears the slot and recomputes the next id |
| `JobTable.JobList.FgPid` | sp_02_shelllab/tsh.c:557-564 | the pid of the first foreground slot, or 0 |
| `JobTable.JobList.GetJobPid` | sp_02_shelllab/tsh.c:567-576 | the first slot with that pid, or none |
| `JobTable.JobList.GetJobJid` | sp_02_shelllab/tsh.c:579-589 | the first slot with that job id, or none |
| `JobTable.FreeSlotExact` | sp_02_shelllab/tsh.c:520-521 | a slot is free if and only if fewer than 16 processes have one |
| `JobTable.AddPids` | sp_02_shelllab/tsh.c:513-536 | the listed processes gain the new one if and only if there was room, and slots stay distinct |
| `JobTable.DeletePids` | sp_02_shelllab/tsh.c:539-554 | the listed processes lose exactly that one |
| `JobTable.NextIds` | sp_02_shelllab/tsh.c:524-549 | the next job id after an addition, and after a deletion: one more than the largest in use |
| `JobTable.DeleteThenAdd` | sp_02_shelllab/tsh.c:513-554 | adding a deleted process again restores the set of listed processes |
| `ShellJobs.StepExact` | sp_02_shelllab/tsh.c:173-437 | from a good state a step leads to a good state if and only if it is timely |
| `ShellJobs.ListedExact` | sp_02_shelllab/tsh.c:203-229 | a step keeps jobs and children in step if and only if it does not enter a job while more than 16 children are outstanding |
| `ShellJobs.AlwaysListedExact` | sp_02_shelllab/tsh.c:173-437 | a run keeps them in step throughout if and only if all its steps do so |
| `ShellJobs.OrderlyExact` | sp_02_shelllab/tsh.c:338-363 | a step keeps the foreground in order if and only if it is not an fg state write to a slot that is no longer its job's |
| `ShellJobs.AlwaysOrderlyExact` | sp_02_shelllab/tsh.c:173-437 | a run keeps the foreground in order throughout if and only if all its fg state writes hit their jobs |
| `ShellJobs.UnaimedBreaks` | sp_02_shelllab/tsh.c:361-363 | after one that misses, the next poll leads to a prompt with a job in the foreground |
| `ShellJobs.StatesWritten` | sp_02_shelllab/tsh.c:226-428 | a job is entered FG or BG as the command asked, a job reported stopped becomes ST, one aimed at by fg or bg becomes FG or BG; no other slot changes |
| `ShellJobs.IntentKept` | sp_02_shelllab/tsh.c:180-367 | a command is carried out as typed in every run: foreground or background, and the slot and state asked for by fg and bg |
| `ShellJobs.ForegroundTaken` | sp_02_shelllab/tsh.c:226-363 | a foreground command entered with room, or an fg that is aimed, makes its job the only one in the foreground |
| `ShellJobs.ForegroundHolds` | sp_02_shelllab/tsh.c:232-384 | from there every possible run in which the handler is not told about the job ends with the shell still waiting for it, however often waitfg looks |
| `ShellJobs.ReapReleases` | sp_02_shelllab/tsh.c:377-428 | once the handler was told that it died or stopped, no job is in the foreground and waitfg ends |
| `ShellJobs.CrashExact` | sp_02_shelllab/tsh.c:226-236 | with jobs and children in step, a step uses a NULL job if and only if it announces a child already reaped |
| `ShellJobs.CrashOnlyLate` | sp_02_shelllab/tsh.c:173-437 | so it is in every run with room for the jobs entered |
| `ShellJobs.EnterExact` | sp_02_shelllab/tsh.c:203-229 | entering a forked child keeps list and children in step if and only if at most 16 children are outstanding |
| `ShellJobs.AnnounceExact` | sp_02_shelllab/tsh.c:232-236 | announcing a background job is safe if and only if it has not been reaped |
| `ShellJobs.ReadPidExact` | sp_02_shelllab/tsh.c:339-341 | reading the pid of a job found by job id is right if and only if it has not been deleted since |
| `ShellJobs.WriteExact` | sp_02_shelllab/tsh.c:338-367 | the state write of fg and bg is right if and only if the job is still in the slot that was looked up |
| `ShellJobs.ReapInv` | sp_02_shelllab/tsh.c:413-429 | one round of the handler keeps every part of the invariant |
| `ShellJobs.RunInv` | sp_02_shelllab/tsh.c:173-437 | the invariant over every run of timely steps |
| `ShellJobs.JobsAreChildren` | sp_02_shelllab/tsh.c:203-229 | in every run that enters jobs only while at most 16 children are outstanding, late announcements and state writes included: whenever SIGCHLD is unblocked the jobs are exactly the unreaped children, once each |
| `ShellJobs.HandlerFindsJob` | sp_02_shelllab/tsh.c:413-428 | in every such run each child the handler is told about has an entry |
| `ShellJobs.OneForeground` | sp_02_shelllab/tsh.c:377-384 | in every run whose fg state writes hit the job they looked up, whatever else comes late and however many children there are: at most one job is in the foreground, none when a command is read |
| `ShellJobs.SignalTarget` | sp_02_shelllab/tsh.c:446-475 | in every such run with room for the jobs entered, ctrl-c and ctrl-z go to the unreaped child the shell is waiting for, or to nobody |
| `ShellJobs.WaitEnds` | sp_02_shelllab/tsh.c:377-384 | waitfg ends exactly when its pid is not 0 and the job is no longer in the foreground |
| `ShellJobs.ZeroPid` | sp_02_shelllab/tsh.c:339-363 | fg with a job id whose process is reaped before its pid is read waits for pid 0 |
| `ShellJobs.StuckForever` | sp_02_shelllab/tsh.c:377-384 | a wait for pid 0 never ends |
| `ShellJobs.StaleResume` | sp_02_shelllab/tsh.c:338-363 | a job that exits between lookup and state write of fg leaves a cleared slot marked as foreground at the prompt |
| `ShellJobs.LateAnnounce` | sp_02_shelllab/tsh.c:229-236 | a background child that exits before it is announced makes the shell use a NULL job |
| `ShellJobs.BackgroundStarted` | sp_02_shelllab/tsh.c:226-236 | timely runs reach the states those two start from |
| `ShellJobs.SeventeenChildren` | sp_02_shelllab/tsh.c:203-226 | a timely run reaches the point where the seventeenth job is to be entered |
| `ShellJobs.NoEntry` | sp_02_shelllab/tsh.c:226-236 | the child then entered gets no slot, and its announcement or the report that it stopped uses a NULL job |
| `CommandLine.TokensOfPrinted` | sp_02_shelllab/tsh.c:249-287 | printed arguments split back into themselves if and only if none that is quoted contains a quote and none that is not starts with one |
| `CommandLine.PrintParse` | sp_02_shelllab/tsh.c:249-297 | printing and parsing gives the arguments back; a last one starting with an ampersand is dropped and means background |
| `CommandLine.NoArguments` | sp_02_shelllab/tsh.c:259-290 | a line has no arguments if and only if it is blank or starts with a quote that is never closed; it then means background |
| `CommandLine.TokenPrinted` | sp_02_shelllab/tsh.c:264-286 | a printable argument in front of a line is its first token |
| `CommandLine.TokenMangled` | sp_02_shelllab/tsh.c:264-286 | one that is not printable never is |
| `CommandLine.Parser.CopyLine` | sp_02_shelllab/tsh.c:257-258 | the local copy, its last character a space |
| `CommandLine.Parser.StrChr` | sp_02_shelllab/tsh.c:264-270 | the first occurrence or NULL |
| `CommandLine.Parser.NextArgument` | sp_02_shelllab/tsh.c:276-285 | skips spaces and finds the argument the token function says comes next |
| `CommandLine.Parser.Cut` | sp_02_shelllab/tsh.c:263-286 | after the loop argv points to the tokens, each ended by a NUL |
| `CommandLine.Parser.ParseLine` | sp_02_shelllab/tsh.c:249-297 | argv holds the parsed arguments as C strings, then NULL; the result is the background flag |
| `RioReader.LineLengthExact` | sp_06_proxylab/proxylab-handout/csapp.c:860-882 | there is exactly one length without an earlier newline that stops short of limit and stream only after a newline |
| `RioReader.ShortTakesAll` | sp_06_proxylab/proxylab-handout/csapp.c:838-882 | a short answer takes all that is unread |
| `RioReader.Rio.constructor` | sp_06_proxylab/proxylab-handout/csapp.c:826-831 | an empty buffer |
| `RioReader.Rio.Refill` | sp_06_proxylab/proxylab-handout/csapp.c:798-809 | repeats interrupted reads; ends with unread bytes, at the end of the stream, or on an error |
| `RioReader.Rio.RioRead` | sp_06_proxylab/proxylab-handout/csapp.c:794-819 | delivers the next bytes of the stream, at least one unless at its end |
| `RioReader.Rio.ReadNb` | sp_06_proxylab/proxylab-handout/csapp.c:838-853 | delivers n bytes or all that is left, whatever reads return; never fails without a read error |
| `RioReader.Rio.ReadLineb` | sp_06_proxylab/proxylab-handout/csapp.c:860-882 | delivers exactly the next line: up to the first newline, maxlen - 1 bytes or the end of the stream, and ends it with NUL |
| `RioReader.Call` | sp_06_proxylab/proxylab-handout/csapp.c:838-882 | one call of either kind delivers what the request takes from the unread stream |
| `RioReader.Serve` | sp_06_proxylab/proxylab-handout/csapp.c:838-882 | any list of calls on one reader, however reads are cut and interrupted: the answers are those of the stream alone, put end to end they are exactly the part of it consumed, and after a short block or an empty line nothing is left |
| `MemList.RecordedGet` | sp_01_linklab/handout/utils/memlist.c:66-87 | recording an address changes what is known of it and of no other; the list stays sorted |
| `MemList.ReleasedGet` | sp_01_linklab/handout/utils/memlist.c:98-107 | the same for one count less |
| `MemList.List.constructor` | sp_01_linklab/handout/utils/memlist.c:17-41 | a dummy head and no entries |
| `MemList.List.Locate` | sp_01_linklab/handout/utils/memlist.c:66-70 | the walk stops at the place of the address |
| `MemList.List.LinkAfter` | sp_01_linklab/handout/utils/memlist.c:72-86 | a new item is linked in behind its predecessor |
| `MemList.List.Alloc` | sp_01_linklab/handout/utils/memlist.c:54-90 | the sorted list with the address recorded |
| `MemList.List.Dealloc` | sp_01_linklab/handout/utils/memlist.c:92-108 | the list with one count less, unchanged if the address is unknown |
| `MemList.List.Find` | sp_01_linklab/handout/utils/memlist.c:110-121 | finds an item if and only if the address was recorded |
| `MemTrace.AgreesRecorded` | sp_01_linklab/handout/part3/memtrace.c:92-94 | counts agree with the live blocks after an allocation |
| `MemTrace.AgreesReleased` | sp_01_linklab/handout/part3/memtrace.c:193-196 | and after a release |
| `MemTrace.Tracer.Malloc` | sp_01_linklab/handout/part3/memtrace.c:80-101 | the returned address becomes live and listed with its size |
| `MemTrace.Tracer.Calloc` | sp_01_linklab/handout/part3/memtrace.c:103-124 | the same for nmemb * size bytes |
| `MemTrace.Tracer.Free` | sp_01_linklab/handout/part3/memtrace.c:172-199 | for any pointer: only live ones reach the allocator; double frees are told from pointers never handed out |
| `MemTrace.Tracer.Realloc` | sp_01_linklab/handout/part3/memtrace.c:126-170 | for any pointer: one that is not live is replaced by a new block, one large enough is returned, only live ones are passed on |
| `MemTrace.AddressesRecorded` | sp_01_linklab/handout/utils/memlist.c:66-87 | recording adds one address to those ever listed |
| `MemTrace.Serve` | sp_01_linklab/handout/part3/memtrace.c:80-199 | any one call: its answer, its log entry and the blocks after it are those computed from the blocks before |
| `MemTrace.Session` | sp_01_linklab/handout/part3/memtrace.c:80-199 | any list of calls, legal or not: all answers and log entries, the final live blocks and every address ever handed out are those computed from the calls; list and allocator agree at the end |
| `Transpose.TransposeTiled` | sp_04_cachelab/trans.c:88-97 | for all sizes the clipped tiles write every cell exactly once, correctly |
| `Transpose.CopyEight` | sp_04_cachelab/trans.c:38-57 | eight cells are moved |
| `Transpose.CopyFour` | sp_04_cachelab/trans.c:65-72 | four cells are moved |
| `Transpose.Transpose32` | sp_04_cachelab/trans.c:35-59 | each cell once, correctly |
| `Transpose.Transpose64` | sp_04_cachelab/trans.c:61-85 | each cell once, correctly |
| `Transpose.TransposeSubmit` | sp_04_cachelab/trans.c:28-101 | for all M and N each cell of B is written once and B is the transpose of A |
| `Transpose.TransposeRows` | sp_04_cachelab/trans.c:112-123 | the same result row by row |
| `Transpose.IsTranspose` | sp_04_cachelab/trans.c:147-159 | true if and only if B is the transpose of A |

## Left out

- Unfinished or trivial allocators: `sp_03_malloclab/src/mm.c`, `mm_naive.c`, the stubs of lab5, `mm-realloc.c` and the mark-and-sweep of `mm-gc.c`.
- Allocator.Heap.Malloc: requests whose `size + 15` wraps in 32 bits, for which the code rounds to a block that is too small (AdjustedSizeExact); Realloc excludes them too.
- Allocator.Heap.Realloc: `realloc(NULL, 0)` frees a NULL pointer in the code and is excluded by a precondition, as is the free of a pointer that is not live.
- Allocator.Heap.Sbrk: heaps are below 2^31 bytes, so the C int increment is exact, and `mem_brk + incr` does not wrap around the address space; where it does, the test passes and the break moves to a wrong place.
- RunAllocator.PageHeap.Sbrk: `mem_brk + incr` does not wrap around the address space.
- Allocator.Heap.ExtendHeap: fewer than four words, for which the code makes a block below the minimum size; no caller asks for that.
- RunAllocator.PageHeap.RequestMoreSpace: the process exit on a failing mem_sbrk is the result `ok == false`; a request of 0 or one whose rounding wraps is excluded.
- CacheSim.Simulator.Run: verbose printing, the size field and option parsing; more than INT_MAX counted operations.
- BoundedBuffer.InvRun: wrap-around of rear and front; they are unbounded here.
- ReadersWriters.InvRun: eviction and the contents of the cache list; the list access is one step. Eviction dereferences a NULL next for a tail item and reads freed members.
- ShellJobs.RunInv: terminal output, exec, quit, system call errors and delivery of SIGCONT; job ids may repeat after the wrap at 16; of them only the next one is described (NextIds).
- CommandLine.Parser.Cut: as for ParseLine below.
- CommandLine.Parser.ParseLine: lines of MAXLINE or more characters, empty strings and more than 127 arguments, which overflow buffers in the code.
- RioReader.Serve: read errors other than EINTR; ReadNb and ReadLineb say what one call leaves then.
- RioReader.Rio.ReadLineb: maxlen of 2^31 or more, where the C int counter overflows.
- RioReader.Rio.ReadNb: an endless sequence of interrupted reads; scripts are finite, after them reads return what there is.
- MemTrace.Tracer.Malloc: byte and call statistics, logging text, symbol lookup, an allocator that fails; nmemb * size does not wrap.
- Driver.EvalMmValid: timing, utilisation, trace files and the range list as a linked list; its overlap test misses a range that contains an older one (OverlapsExact), so disjointness is proved of the allocator instead.
- Kernel modules, the web servers, sockets, header parsing, the other duplicates of csapp.c.
