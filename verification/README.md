# A verified model of libvmemcache

libvmemcache keeps byte strings under keys in one mapped memory region and evicts the least recently used ones when the
region is full. This project models its core in Dafny and proves what the pieces promise, up to whole runs of the cache
and every interleaving of its threads.

The serial part takes the form of the C code: classes whose methods change memory in place.

- `Heap`: the extent allocator. Headers and footers live in maps from addresses to records; `HeapLayout` and
  `HeapInvariant` view the region as a tiling of blocks with owners, `HeapConservation` adds up its bytes, `HeapTags`
  keeps the tags apart from the values' bytes, which share one mapping, and `HeapRuns` decides by runs of the allocator
  when a chain has an extent too many.
- `Critnib`: the radix tree of cells and child pointers. `CritnibTree` is the tree as a value, `CritnibStore` says how
  cells represent it. `Index` shards keys over such trees, with the 8-byte length in front of each key.
- `TailQueue`, `RingBuffer`, `Lru`: the recency list, the ring run serially, and the buffered LRU on top of both.
  `LruSpec` is what the LRU is held against: a list, a queue of entries that wait to be moved to its tail, and the recency
  order that the two stand for.
- `Values`, `CacheLinks`, `CacheNames`, `Cache`: scattering and gathering values over extents, how the parts belong
  together, the entries seen through their keys, and put, get, exists, evict and the statistics. `CacheSpec` is what they
  are held against: a map from keys to byte strings with such a buffered list of keys. `CacheRuns` runs any sequence of
  calls.

The concurrent part consists of step machines, for any number of threads and every schedule: `RingProtocol` (the
ring's semaphores, tickets and compare-and-swaps), `LruProtocol` (users, evictors and inserters on top of that ring
machine), `EntryLifetime` (reference counts and the `evicting` flag) and `CacheProtocol`, which runs the last two as one:
puts, gets and evictions that hold references while they are in the replacement policy's code. `LruSerial` and
`CacheSerial` compare the two with the serial ones.

## Main results

- Any run of calls on the cache is a run of the map with evictions; a hit returns the requested part of the value last
  put under its key (`CacheRuns.Execute`, `CacheRuns.HitReturnsLastPut`). The statistics count exactly the successful
  puts, the evicted keys, the hits and the misses of the run.
- The LRU's list and ring are determined by the calls, evictions included. The ring is flushed by an eviction that finds
  the head of the list in it, by the eviction of a key in it, and by a use that finds it full, and by nothing else; so a
  key that was hit keeps its place when it is hit again until then (`CacheRuns.RingStep`, `CacheRuns.StaysBuffered`).
- Between calls the allocated blocks are exactly the chains of the indexed entries, which are exactly the listed ones,
  with two references each (`Cache.Cache.Valid`, kept by every call). Evicting until it fails leaves one
  free block (`Cache.Cache.EvictAll`).
- Allocation covers exactly as much of a request as the free blocks can hold (`Heap.Heap.Alloc`). A put evicts nothing
  if its value fits there. It evicts one more key only if the bytes that the remaining values leave could not be relied on
  to hold the new value. It never fails for a value of at most the guaranteed room, and always fails above the region
  less one pair of tags (`Cache.Cache.Put`).
- No header or footer that allocation or freeing writes lies in the bytes of a stored value, and copying a value in writes
  no tag (`HeapTags.TagsApart`, carried by `Heap.Heap.Alloc`, `Heap.Heap.FreeChain` and `Values.PopulateExtents`).
- The tree is exactly a finite map and its shape depends on the keys alone (`Critnib.Critnib.Set`,
  `Critnib.Critnib.Remove`, `CritnibTree.Canonical`).
- No interleaving loses or doubles an item in the ring, and every interleaving can be finished (`RingProtocol.AlwaysInv`,
  `RingProtocol.Drains`). Each entry has one holder at any time (`LruProtocol.OneHolder`). No entry is touched
  after it is freed (`EntryLifetime.NoUseAfterFree`), and it is found until an evictor takes it out of the index
  (`EntryLifetime.FoundUntilTakenOut`); with the LRU's code included, this covers every cell that emptying
  the ring or evicting writes (`CacheProtocol.LiveCells`, `CacheProtocol.FreedIsForgotten`).
- Schedules of the concurrent LRU, and of the concurrent cache, that run their operations one after the other end with
  exactly the list, the ring and the live entries of the serial ones (`LruSerial.Serial`, `CacheSerial.SerialRun`).

## Where the code does less than one might read into it

- The assertion in `vmemcache_populate_extents` that the value reaches every extent can fail in a region if and only if
  the region is wasteful (`HeapRuns.WasteDecided`). With extent size E and remainder r of the region by E, that means:
  three whole extents and r from 1 to 31 or above E - 32, or four whole extents and r above E - 64. In a wasteful region
  the method carries out a run from a new heap to a finished chain that the value does not fill up to its last extent, and
  to the failing assertion; in any other, no finished chain in any heap has an extent too many.
- `repl_p_lru_evict` gives up with the comment that all entries are then in the middle of being used. Entry by entry this
  is false (`LruProtocol.FailureBesideUsers` is a run). `LruProtocol.HeldExactlyWhen` says exactly when it is true, and
  `LruProtocol.FailureIsJustified` that the numbers bear it out: eviction succeeds whenever listed entries outnumber users.
- An evictor that has popped the oldest entry and then loses the `evicting` flag drops the entry's place on the floor. The
  entry is then stranded: indexed and referenced, but neither listed nor with a thread that will list or remove it. It
  stays so for ever (`EntryLifetime.StrandedForever`), this is the only way (`EntryLifetime.StrandedBy`), and the LRU does
  hand out such an entry (`CacheProtocol.LruStrands`).
- `repl_p_lru_insert` fills the entry's cell before it links the replacement entry, and the entry is in the index already.
  A get in between is harmless by itself: the entry may go through the ring, and `TAILQ_MOVE_TO_TAIL` leaves alone what has
  no successor (`TailQueue.TailQueue.MoveToTail`, `CacheProtocol.AlwaysInv`). But `TAILQ_REMOVE` writes through the
  backward pointer, which is NULL until the entry is linked. An evictor comes to that exactly if it takes such an entry
  by its key, or from the ring as the last chance (`CacheProtocol.FaultBy`); there is a run from the start for each
  (`CacheProtocol.FaultFromStart`). It can happen in no run if and only if neither gets nor evictions by key begin before
  the put of their key has returned (`CacheProtocol.PatienceDecides`).

## Model

| member | source | states |
|---|---|---|
| `Heap.Heap.constructor` | src/vmemcache_heap.c:237-276 | a new mapping becomes one free block between two guard pages, page aligned, whatever the memory held; the guards read as allocated |
| `Heap.Heap.InsertHeapEntry` | src/vmemcache_heap.c:163-198 | a detached block gets both tags and becomes the head of the free list or of a value's chain; every other block, tag and link survives |
| `Heap.Heap.PopHeapEntry` | src/vmemcache_heap.c:203-232 | detaches the first free block, with the size both of its tags give; fails exactly when the free list is empty |
| `Heap.Heap.HeapRemove` | src/vmemcache_heap.c:434-464 | detaches a free block from any place in the free list, which stays doubly linked and headed right |
| `Heap.Heap.HeapMerge` | src/vmemcache_heap.c:469-498 | reading neighbours' tags only, the block grows until neither neighbour is free, and no value's chain changes |
| `HeapInvariant.ReadLeft` | src/vmemcache_heap.c:480-488 | the word before a block decides: its flag is clear exactly when a free block ends there, and then its size leads to that block |
| `HeapInvariant.ReadRight` | src/vmemcache_heap.c:490-497 | the word after a block decides in the same way about the right neighbour |
| `Heap.Heap.FreeExtent` | src/vmemcache_heap.c:318-354 | taking a one-extent block out of the middle of a chain removes just that block and frees it; the head of the chain is untouched |
| `Heap.Heap.SplitPopped` | src/vmemcache_heap.c:387-397 | the kept part has the requested size, the rest is a well-tagged free block, no chain changes |
| `Heap.Heap.AllocStep` | src/vmemcache_heap.c:383-420 | one turn keeps the invariant and follows the size arithmetic: which block is cut, when the recorded one-extent block goes back, what is left to allocate; the blocks popped are the first of the free list |
| `Heap.Heap.Alloc` | src/vmemcache_heap.c:365-429 | allocates the request or exactly what all free blocks can hold, in one chain; other chains keep their blocks and no tag is written into their bytes; zero exactly when nothing was free; the payload counter follows |
| `HeapInvariant.AllocationBound` | src/vmemcache_heap.c:387-418 | a finished chain holds the request and wastes at most 2E - 2 bytes, less than E if E divides the region, less than E - 32 if a one-extent block was recorded |
| `HeapInvariant.LastExtentNeeded` | src/vmemcache.c:291-297 | unless the region is wasteful, in every finished chain the extents before the last one are too small for the value |
| `HeapRuns.WasteDecided` | src/vmemcache.c:291-297 | from a new heap, for every size and extent size: if and only if the region is wasteful, a run of allocations and frees leaves a heap with a finished chain whose last extent the value does not reach, which is when the assertion fails; otherwise no settled layout has such a finished chain |
| `HeapRuns.TailRun` | src/vmemcache_heap.c:383-420 | that run for every remainder from 1 to 31 with at least three whole extents |
| `HeapRuns.SinglesRun` | src/vmemcache_heap.c:383-420 | that run for every remainder above E - 32 with three, or above E - 64 with four whole extents, although one extent is given back |
| `HeapTags.TagsApart` | src/vmemcache_heap.c:64-158 | the header and the footer of every block lie outside the extents of every value |
| `HeapTags.GuardsApart` | src/vmemcache_heap.c:237-276 | so do the guard words before and after the region |
| `HeapTags.TagsDisjoint` | src/vmemcache_heap.c:64-158 | headers and footers, of one block or of any two, overlap neither each other nor the guard words |
| `Heap.Heap.FreeChain` | src/vmemcache_heap.c:503-534 | frees the blocks of one value and of no other; no tag is written into another value's bytes; the payload counter drops by what they held |
| `Heap.Heap.ReadExtent` | src/vmemcache_heap.c:108-130 | the header of a chain element gives its payload size and the next element |
| `HeapLayout.SplitTiled` | src/vmemcache_heap.c:387-397 | cutting a block leaves an exact tiling |
| `HeapLayout.JoinTiled` | src/vmemcache_heap.c:469-498 | joining two neighbours leaves an exact tiling |
| `HeapLayout.Covered` | src/vmemcache_heap.c:237-276 | every address of the region lies in a block |
| `HeapInvariant.ExtentsApart` | src/vmemcache_heap.c:365-429 | extents of any two chain places do not overlap |
| `HeapInvariant.EmptyHeap` | src/vmemcache_heap.c:469-498 | with nothing allocated, one free block spans the region |
| `HeapConservation.Conservation` | src/vmemcache_heap.c:318-534 | payloads, 32 tag bytes per allocated block, and free blocks add up to the region |
| `HeapConservation.Exhausted` | src/vmemcache_heap.c:365-429 | with nothing free, a chain holds at least the bytes that the other values leave, less 32 per block that can be there |
| `HeapConservation.FullChain` | src/vmemcache_heap.c:365-429 | a chain that owns every block holds at least the region less 32 bytes per whole extent in it |
| `HeapConservation.ChainBound` | src/vmemcache_heap.c:365-429 | no chain holds more than the region less 32 bytes |
| `Values.PopulateExtents` | src/vmemcache.c:284-300 | the value can be read back from the chain; no byte outside the chain changes, so no tag does; the assertion holds exactly when the extents before the last one are too small for the value |
| `Values.PopulateValue` | src/vmemcache.c:408-451 | returns bytes offset to min(offset + buffer, length) of the stored value, for every offset and buffer size |
| `CritnibTree.FindIsHas` | src/critnib.c:222-246 | the descent that looks at branching nibbles only, followed by one comparison, finds exactly the stored items |
| `CritnibTree.WalkIsBest` | src/critnib.c:141-163 | the leaf that insertion compares with shares the longest prefix with the new key |
| `CritnibTree.InsertWF` | src/critnib.c:188-216 | insertion at the divergence nibble adds exactly the new item and keeps the tree well formed |
| `CritnibTree.RemoveWF` | src/critnib.c:263-303 | removal deletes exactly the given item and keeps every node forked |
| `CritnibTree.Canonical` | src/critnib.c:128-217 | well-formed trees with the same items are equal but for node addresses |
| `CritnibTree.InsertThenRemove` | src/critnib.c:128-304 | inserting a new key and removing it gives back the earlier tree |
| `CritnibTree.FewNodes` | src/critnib.c:207-215 | there are fewer nodes than leaves |
| `CritnibTree.AnyLeaf` | src/critnib.c:114-123 | some leaf is found below every node |
| `CritnibStore.InsertRep` | src/critnib.c:188-216 | writing one new cell and one child pointer turns the cells of a tree into those of the tree with the new leaf, without sharing |
| `CritnibStore.RemoveRep` | src/critnib.c:263-303 | clearing one child pointer, or replacing one by the only sibling, does the same for removal |
| `CritnibStore.RemoveCounts` | src/critnib.c:285-302 | removal costs one leaf, and one node exactly when a sole child takes its place |
| `Critnib.DivergeAt` | src/critnib.c:166-186 | the byte scan and the highest set bit of the exclusive or give the first nibble where two keys differ |
| `Critnib.Critnib.FindLeaf` | src/critnib.c:141-163 | insertion's first descent by pointers ends where the value descent ends |
| `Critnib.Critnib.Get` | src/critnib.c:222-246 | returns the entry stored under exactly this key, and fails exactly when there is none |
| `Critnib.Critnib.FindEdge` | src/critnib.c:188-195 | the second descent stops at the edge where the new node belongs |
| `Critnib.Critnib.Set` | src/critnib.c:128-217 | EEXIST exactly when the key is there; otherwise the map gains just this key |
| `Critnib.Critnib.Remove` | src/critnib.c:253-304 | returns what was stored and the map loses just this key; NULL and no change when it is not there |
| `Index.EncodedPrefixFree` | src/critnib.c:22 | keys with their 8-byte length in front are never prefixes of one another |
| `Index.Index.Insert` | src/vmemcache_index.c:102-129 | the whole index is one map; EEXIST exactly for a present key; a success adds one put at the key's shard and to the total, and no other counter changes |
| `Index.Index.Get` | src/vmemcache_index.c:134-183 | finds exactly the present keys; one hit or miss is counted if asked for, and nothing else changes |
| `Index.Index.Remove` | src/vmemcache_index.c:188-216 | the index loses just this key; one eviction is counted at its shard and in the total, and no other counter changes |
| `Index.Index.ShardFacts` | src/vmemcache_index.c:102-129 | in each shard leaves are puts less evictions, nodes are none or fewer than leaves, and every key's hash modulo 256 is the shard, or the shard is 0 without sharding |
| `Index.Index.EmptyIndex` | src/critnib.c:263-303 | without keys, no shard has a node or a root left |
| `Index.Index.GetStat` | src/vmemcache_index.c:221-268 | a counter is the sum over all shards, and the number of entries is that of the map's keys |
| `TailQueue.TailQueue.InsertTail` | src/sys/queue.h:429-434 | the pointer list is the sequence with the element appended |
| `TailQueue.TailQueue.Remove` | src/sys/queue.h:453-461 | the pointer list is the sequence without the element |
| `TailQueue.TailQueue.MoveToTail` | src/sys/queue.h:463-474 | the pointer list is the sequence with the element moved to its end; nothing changes for an element that is not linked yet |
| `RingBuffer.RingBuffer.TryEnqueue` | src/ringbuf.c:181-194 | run serially, appends to a queue; fails exactly when it is full |
| `RingBuffer.RingBuffer.TryDequeue` | src/ringbuf.c:250-266 | run serially, returns the oldest item; fails exactly when there is none |
| `LruSpec.FlushOne` | src/vmemcache_repl.c:187-210 | moving the oldest buffered entry to the tail leaves the recency order as it was |
| `LruSpec.TouchKeeps` | src/vmemcache_repl.c:272-302 | an entry that is used becomes the most recent one; one that is buffered keeps its place |
| `LruSpec.DropKeeps` | src/vmemcache_repl.c:307-416 | evicting an entry takes it out of the recency order and leaves the others in order |
| `LruSpec.DropOldestKeeps` | src/vmemcache_repl.c:307-416 | evicting from the list, flushed just when its head is buffered, takes the first of the recency order |
| `Lru.Lru.DequeueAll` | src/vmemcache_repl.c:187-210 | the list becomes the recency order and the ring empty, in one step for the specification |
| `Lru.Lru.Insert` | src/vmemcache_repl.c:234-267 | the list gets the new entry at its tail, so that it goes behind the unbuffered entries and before the buffered ones |
| `Lru.Lru.Use` | src/vmemcache_repl.c:272-302 | nothing for a buffered entry; else it joins the ring, which is flushed before exactly if it is full |
| `Lru.Lru.Evict` | src/vmemcache_repl.c:307-416 | removes the oldest entry of the recency order, flushing the ring exactly if the head of the list is in it; fails exactly when there is none |
| `Lru.Lru.EvictEntry` | src/vmemcache_repl.c:307-416 | removes a given entry, flushing the ring exactly if the entry is in it; fails exactly when it is not listed, and then the ring is flushed |
| `Cache.Cache.constructor` | src/vmemcache.c:135-251 | a new cache is empty and consistent, has the size, extent size, sharding and hash asked for, and all of the mapping between two aligned guards as free room; all counters are 0 |
| `Cache.Cache.Release` | src/vmemcache.c:467-483 | one reference less; the last one frees the entry and exactly its blocks |
| `Cache.Cache.AllocValue` | src/vmemcache.c:357-375 | ends, having evicted a prefix of the recency order, with a chain that holds the value, or with nothing left to evict and a value above the guaranteed room; the last eviction came when the room left by the remaining values could fall short of the value |
| `Cache.Cache.StoreValue` | src/vmemcache.c:284-300 | the new value is in its chain, every stored value reads as before, and the assertion holds exactly when the extents before the last one are too small for the value, so always unless the region is wasteful |
| `Cache.Cache.Abandon` | src/vmemcache.c:395-400 | a failed put returns all its extents and changes no stored value |
| `Cache.Cache.Put` | src/vmemcache.c:327-401 | stores the value under a new key after evicting the n oldest keys, which are counted; EEXIST and ENOSPC as specified; no eviction if the value fits the free room, and none that the values left before it did not call for; bounds below which it never fails and above which it always does; no hit or miss is counted |
| `Cache.Cache.Get` | src/vmemcache.c:489-545 | a hit returns the requested part of the value and its length, uses the key and counts one hit at its shard; a miss counts one miss and changes nothing else |
| `Cache.Cache.Exists` | src/vmemcache.c:550-572 | tells presence and length and changes nothing, no counter either |
| `Cache.Cache.Evict` | src/vmemcache.c:578-662 | the oldest key and its value go, all other values stay, list and ring are those of the specification, one eviction is counted; ESRCH exactly when there is no key |
| `Cache.Cache.EvictKey` | src/vmemcache.c:578-662 | this key goes, and the ring is flushed just if the key is in it; one eviction and no hit is counted; ENOENT exactly when it is not there |
| `Cache.Cache.GetStat` | src/vmemcache.c:693-738 | each statistic is the total of its counter; gets are hits and misses, entries are the stored keys, the pool in use is the sum of the payloads |
| `CacheLinks.EvictContent` | src/vmemcache.c:644-656 | after an eviction the map has lost one key, all other values read the same |
| `CacheLinks.ScatterContent` | src/vmemcache.c:284-300 | writing a value's extents alters no other value |
| `Cache.Cache.EvictAll` | tests/vmemcache_test_mt.c:54-81 | evicting until it fails ends, and leaves one free block, no payload counted, no entry and no tree node |
| `Cache.Cache.EmptyCache` | tests/vmemcache_test_mt.c:54-81 | with no key left: one free block, no payload counted, no tree node in any shard |
| `CacheRuns.Step` | src/vmemcache.c:327-662 | each call is a step of the map with evictions |
| `CacheRuns.Execute` | src/vmemcache.c:327-662 | so is every sequence of calls, and the cache ends where that run ends, with the counters risen by its successful puts, evicted keys, hits and misses |
| `CacheRuns.AlwaysWellFormed` | src/vmemcache.c:327-662 | throughout any run the recency list has exactly the stored keys, each once, and the ring only some of them |
| `CacheRuns.StoredIsLastPut` | src/vmemcache.c:327-401 | a stored value is that of the last successful put of its key, which was never gone since |
| `CacheRuns.HitReturnsLastPut` | src/vmemcache.c:489-545 | a hit returns the requested part of the value last put under its key |
| `CacheRuns.UsedSurvives` | src/vmemcache_repl.c:272-302 | a key that was just hit outlives exactly as many evictions as there are keys before it: all others if it was not buffered, else its buffered place stands |
| `CacheRuns.RingStep` | src/vmemcache_repl.c:272-416 | a call empties the ring exactly if it is an eviction that finds the list's head there, the eviction of a key there, or the use of another key when it is full; any other call only adds to its end |
| `CacheRuns.StaysBuffered` | src/vmemcache_repl.c:272-302 | over any part of a run without such a call, keys keep their place in the ring, and hits of them change nothing |
| `CacheRuns.PutsLessEvicts` | tests/vmemcache_test_basic.c:734-746 | throughout a run, the stored keys are as many as puts less evictions |
| `CacheRuns.FirstPut` | src/vmemcache.c:135-251 | in terms of the arguments of a new cache: its first put succeeds exactly for values that fit between the guards |
| `CacheSpec.EvictionsAre` | src/vmemcache.c:357-375 | evicting n times takes the first n keys of the recency order and their values |
| `RingProtocol.StepInv` | src/ringbuf.c:136-266 | every atomic step keeps the accounts of permits, positions, slots and items |
| `RingProtocol.AlwaysInv` | src/ringbuf.c:136-266 | so does every schedule of any number of threads |
| `RingProtocol.WithinOneLap` | src/ringbuf.c:136-219 | the write position is ahead of the read position by 0 to the length |
| `RingProtocol.SpinningDequeuer` | src/ringbuf.c:213-216 | a dequeuer that spins on an empty slot has an enqueuer with a ticket for it, whose next step fills it |
| `RingProtocol.SpinningEnqueuer` | src/ringbuf.c:145-150 | an enqueuer that spins on a full slot has a dequeuer with a ticket for it |
| `RingProtocol.Drains` | src/ringbuf.c:136-266 | from every state that can arise, all operations under way can be finished |
| `RingProtocol.Quiescent` | src/ringbuf.c:121-130 | with nobody at work, accepted items are returned or in slots, and the counters and positions say how many |
| `RingProtocol.WrappedSlot` | src/ringbuf.c:141 | wrapping the counter at a multiple of the length does not change the slot |
| `LruProtocol.StepInv` | src/vmemcache_repl.c:187-416 | every atomic step of users, evictors and inserters, who fill the cell first and link later, keeps the ownership accounts |
| `LruProtocol.AlwaysInv` | src/vmemcache_repl.c:187-416 | so does every schedule of any number of threads |
| `LruProtocol.OneHolder` | src/vmemcache_repl.c:272-302 | from the filling of its cell until its eviction an entry is unlocked, or with one thread, or in the ring once; before and after it is nowhere |
| `LruProtocol.LinkedOnly` | src/vmemcache_repl.c:187-210 | the walk passes over linked entries only; what is moved, unlocked or removed is linked or about to be |
| `LruProtocol.FaultBy` | src/vmemcache_repl.c:334-408 | a step leads to the removal of an unlinked entry exactly if the thread locks the filled cell of the given entry, or dequeues as the last chance, before that entry is linked |
| `LruProtocol.FailureIsJustified` | src/vmemcache_repl.c:388-405 | a failed eviction of the oldest entry has at least as many users in mid-use as there are listed entries; at the last chance exactly as many as listed entries and locked ones not linked yet |
| `LruProtocol.HeldExactlyWhen` | src/vmemcache_repl.c:396-401 | every listed entry is then in its user's hands if and only if each listed entry in a slot still has its enqueuer waiting to post |
| `LruProtocol.FailureBesideUsers` | src/vmemcache_repl.c:396-401 | for every ring length from 2 on, a reachable state in which eviction fails while one entry is in no user's hands |
| `LruSerial.FinishFlush` | src/vmemcache_repl.c:187-210 | a thread alone at work that flushes, whatever for, empties the ring in the order of its items and leaves the recency order as the list |
| `LruSerial.Begins` | src/vmemcache_repl.c:234-416 | every operation begun with nobody at work finishes with the effect of the serial one |
| `LruSerial.Serial` | src/vmemcache_repl.c:234-416 | every schedule, for any number of threads, that runs operations one after the other ends with the list, the ring and the cells of the serial LRU after the same operations |
| `EntryLifetime.StepInv` | src/vmemcache.c:456-662 | every atomic step keeps the count of references, the place of each entry and the flag's owner |
| `EntryLifetime.AlwaysInv` | src/vmemcache.c:456-662 | so does every schedule of any number of threads |
| `EntryLifetime.NoUseAfterFree` | src/vmemcache.c:586-661 | whatever entry a thread is about to touch is not freed, also after the thread gave up its own references |
| `EntryLifetime.FreedForGood` | src/vmemcache.c:467-483 | an entry is freed only by the release of its last reference, when it is unindexed, unlisted and in no thread's hands |
| `EntryLifetime.NeverBack` | src/vmemcache.c:467-483 | a freed entry is never counted again |
| `EntryLifetime.FoundUntilTakenOut` | src/vmemcache.c:500-502 | after any run a get finds an entry exactly if it was indexed and no evictor has taken it out since |
| `EntryLifetime.AtRest` | src/vmemcache.c:586-661 | with nobody at work, live entries are the indexed ones, with two references, listed exactly if not stranded, and not flagged |
| `EntryLifetime.StrandedBy` | src/vmemcache.c:586-601 | an entry is stranded after a step exactly when it was before, or the step is that of an evictor that has popped it and finds the flag set |
| `EntryLifetime.StrandedForever` | src/vmemcache.c:586-601 | a stranded entry stays so, with two references, in every continuation |
| `EntryLifetime.StrandingHappens` | src/vmemcache.c:586-643 | a run of two evictors that leaves a stranded entry |
| `CacheProtocol.StepInv` | src/vmemcache.c:327-662 | every atomic step of puts, gets and evictions through the LRU keeps both machines' invariants and their coupling: the list has exactly the listed entries, and every thread in the LRU is there on behalf of its call |
| `CacheProtocol.AlwaysInv` | src/vmemcache.c:327-662 | so does every schedule of any number of threads |
| `CacheProtocol.RunProjects` | src/vmemcache.c:327-662 | every run is a run of the entries' lives and a run of the LRU, so their theorems hold of it |
| `CacheProtocol.LiveCells` | src/vmemcache_repl.c:202-203 | every cell or entry that a thread's next step touches belongs to an entry that is not freed, linked or not |
| `CacheProtocol.RingLives` | src/vmemcache_repl.c:297 | what the ring carries is linked or being put, and is not freed |
| `CacheProtocol.FreedIsForgotten` | src/vmemcache.c:467-483 | after an entry is freed, in every continuation no thread touches it and neither cell, list nor ring leads to it |
| `CacheProtocol.LruStrands` | src/vmemcache.c:586-643 | a run through the LRU's own code that leaves a stranded entry |
| `CacheProtocol.FaultBy` | src/vmemcache_repl.c:334-408 | in the whole cache: exactly which step leads to the removal of an unlinked entry; its put is then under way, and the evictor has its key or dequeues as the last chance |
| `CacheProtocol.EvictTooEarly` | src/vmemcache_repl.c:253-262 | an eviction by key that begins before the put of its key has returned can remove the unlinked entry, from every state with a free lock, another entry listed and this one neither locked nor flagged |
| `CacheProtocol.FaultFromStart` | src/vmemcache_repl.c:253-408 | for every ring length, runs from the start to that: by key, and, if only gets may begin early, through the ring |
| `CacheProtocol.PatientNeverFaults` | src/vmemcache_repl.c:253-262 | it never happens if no get and no eviction by key begins on a key whose put has not returned |
| `CacheProtocol.PatienceDecides` | src/vmemcache_repl.c:253-408 | of the four rules about early gets and early evictions, exactly the one that forbids both rules it out in all runs of any number of threads |
| `CacheSerial.SerialRun` | src/vmemcache.c:327-662 | every schedule that runs puts, gets and evictions one after the other ends with the list and the ring of the serial cache, and with exactly the listed entries alive, indexed and referenced twice |

## Left out

- Heap.Heap.Alloc: demands a positive size, because its only caller never asks for 0 bytes.
- Index.Index.Insert: demands keys shorter than 2^32 - 8 bytes, so that positions fit the tree's 32-bit byte index.
- Index.Index.Get: the entry that is looked up is passed as a key; the copy on the stack or heap and its failure are not modelled.
- Cache.Cache.constructor: takes the mapping as given and the memory around it as arbitrary words; opening, sizing and mapping the file are input and output.
- Critnib.Critnib.Set: node allocation never fails; the same holds for all other allocations of DRAM.
- Lru.Lru.Use: serial; the compare-and-swap always succeeds on an unlocked entry. `LruProtocol` covers the races.
- EntryLifetime.StepInv: inserting into the list is one step, and which listed entry the policy hands out is left open;
  `CacheProtocol` has both.
- CacheProtocol.StepInv: a thread that removes an unlinked entry stays there; in the code the write through NULL ends the process.
- Cache.Cache.StoreValue: no run of puts that trips the assertion is stated; `HeapRuns.WasteDecided` has runs of the allocator.
- HeapRuns.SinglesRun: works on the allocator; for the cache to free these values in this order, gets must come between the puts.
- The hash that picks a shard is a parameter; only that it is a function matters.
- The replacement policy NONE, callbacks on eviction and on a miss (with the request they satisfy), and re-entrant puts.
- Benchmark switches, prefaulting and code disabled in the source.
- DRAM statistics, which depend on the allocator in use; the size argument of a query.
- Destroying a cache, its index and its ring.
- 64-bit wrap-around of sizes and counters: sizes are kept below 2^63 by precondition, ticket wrap-around is `WrappedSlot`,
  and `size_used`, which is decreased before it is increased, is an unbounded integer.
- Locks and semaphores are atomic steps; memory ordering is sequentially consistent.
