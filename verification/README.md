# StarCache, verified

A Dafny model of StarCache, a two-level (memory and disk) block cache for objects, and proofs about it.
`dafny verify dfyconfig.toml` verifies all of it. Nothing here runs the cache itself.

## What is modelled

| module | what it models | main results |
|---|---|---|
| `StarCache`, `CacheItems`, `ReadRange` | set, get, read, remove; flush, promotion and eviction between the two levels | a successful read returns the bytes last set, whatever moved in between and even when keys share an id; exactly when a read succeeds, and is answered in full, with promotion or without; given space a set stores, and set then get is a round trip, also by way of eviction to disk; what becomes of each block evicted; one key's operations leave the others' objects alone |
| `MemCache`, `DiskCache`, `Segments` | slices and segments of a block in memory, bytes and checksums on disk | memory reads cover exactly what is held; no write spoils what was right; a read never returns wrong bytes, even where transfers fall short |
| `LruContainer`, `Handles`, `EvictionPolicy` | reference-counted handles, the intrusive hash table and the circular LRU list | the handle life cycle over every run, each operation being a run; the list is in the order of last use; eviction takes the shortest oldest-first prefix; the hash table refines a map |
| `RawHashSet`, `OpenTable`, `ProbeSequence` | the open-addressing table behind the access index | lookup agrees with a finite map through insertions, erasures, growth and in-place rehash; every probe loop ends |
| `DiskSpace`, `CacheDirs`, `BlockFiles`, `DirRouter` | block allocation over directories, the mapping to file regions, the weighted router | no live block is given out again; disjoint file regions; exact fairness, conservation and bounded lag of the router |
| `MemSpace` | the memory quota | never over quota; who keeps below the threshold is never refused; a refused request makes progress |
| `Blocking` | the bounded blocking queue, step by step | no lost wakeups; what calls return is what calls accepted, first in first out, each once |
| `BTree`, `BTreeNode` | B-tree node surgery and rebalancing | the key sequence and the place in it are preserved in every branch, and no node is left without a key; insertion and erasure change it at the iterator only |

What the source changes in place is a class with the same fields here: control bytes and slots are arrays,
the table's chains and the LRU ring are linked handles, a memory block is an array of slices, a disk block
an array of bytes and one of checksums. Each class method is tied to a function or relation on values, and
the results about whole runs are lemmas about those.

Choices of the environment are arbitrary. Those that results are about are parameters: where the promotion
policy puts a block (`place`, `location`) and which blocks of a read it promotes (`promote`), what the admission
policy says of a block evicted (`word`), whether there is space enough (`ample`: allocations are granted when
first asked for, so that nothing is evicted) and whether the system does as told (`io`: transfers are carried
out, and in full). Others are not seen from outside: which entries an eviction picks, which allocations are
granted and how far a transfer gets where it is not said, whether a buffer is padded. The hash functions and the
checksum are arbitrary functions, so keys may collide. Configured sizes are constants: the I/O unit divides the
slice, the slice the block, the block the block file, and a block's size is a 32-bit number, as a segment's is
(src/block_item.h:30-31).

The source takes a `pwrite` or `pread` that moves fewer bytes than asked for a success
(src/block_file.cpp:81, 104). A `Medium` that `fallsShort` may do so. Blocks on it need not be whole, and
what keeps reads right is the checksum, which is then taken to tell runs of bytes of one length apart. On a
medium that does not fall short nothing is asked of the checksum: it may be constant, as when checksums are
switched off.

Three places where the code differs from what one might expect are modelled as the code has them:

- The comment at src/star_cache_impl.cpp:344-347 says that an erased handle that is held returns to the list.
  It does not (src/utils/lru_container.cpp:212-233, 296-318).
- Two numbers wrap when an object is read. The index helpers narrow to 32 bits (src/aux_funcs.h:31-53), so a read
  whose last slice ends beyond 4 GiB is answered short (`ReadRange.AnswerShort` gives an object). And `offset + size`
  is a 64-bit sum (src/star_cache_impl.cpp:235): if it wraps to a place within the object, nothing is cut off, and
  the read may be answered short, even with nothing, or fail (`ReadRange.AnswerSlips`, `ReadRange.ReadSlips`). It is
  never answered with other bytes (`ReadRange.AnswerPrefix`); `ReadRange.AnswerExact` says exactly when it is
  answered in full. Where `offset + size` is below 2^64, that is when the last slice wanted ends within 32 bits.
- A failed flush drops memory's copy all the same (src/star_cache_impl.cpp:538).

One bound is weaker in one case than its pattern suggests: a router with a single directory keeps its current
weight at exactly W, so "below kW" holds only from two directories on (`DirRouter.BoundedLag`).

## Model

| member | source | states |
|---|---|---|
| `ProbeSequence.TriInjective` | src/utils/phmap/phmap.h:99-122 | triangular numbers of index below 2^k are pairwise different modulo 2^k |
| `ProbeSequence.TriSurjective` | src/utils/phmap/phmap.h:99-122 | and so reach every residue: quadratic group probing leaves no group out |
| `ProbeSequence.Geometry.EachGroupOnce` | src/utils/phmap/phmap.h:99-122 | whatever the start, each byte of the control ring lies in the window of exactly one of the first g probes, g being the number of groups |
| `ProbeSequence.Geometry.WindowIsGroup` | src/utils/phmap/phmap.h:1914-1928 | the i-th window holds a position exactly when i-th triangular number names the group `probe_index` computes for it |
| `ProbeSequence.Cursor.NextAt` | src/utils/phmap/phmap.h:110-114 | `next` (add the growing index, then mask) lands on the next group of the triangular sequence |
| `ProbeSequence.BeginAt` | src/utils/phmap/phmap.h:102-106 | a fresh cursor stands at the first group of its hash |
| `OpenTable.GrowthBelowCapacity` | src/utils/phmap/phmap.h:492-502 | `CapacityToGrowth` is positive, below the capacity, and grows when the capacity doubles |
| `OpenTable.CountsAdd` | src/utils/phmap/phmap.h:2090-2090 | full, dead and empty bytes together make up the capacity |
| `OpenTable.FullCount` | src/utils/phmap/phmap.h:2041-2052 | the full slots number as many as the entries of the finite map the table stands for |
| `OpenTable.PlaceKeeps` | src/utils/phmap/phmap.h:2041-2067 | a new element put where its own probe order reaches keeps: no full slot is preceded in its probe order by a window with an empty byte, and the table holds the map plus that entry |
| `OpenTable.ReplaceKeeps` | src/utils/phmap/phmap.h:2021-2034 | a value exchanged in a full slot changes the map at that key alone |
| `OpenTable.VacateKeeps` | src/utils/phmap/phmap.h:1803-1821 | a slot may be marked empty rather than deleted if every window around it already had an empty byte; the map loses that key and no other |
| `OpenTable.NeverFullTest` | src/utils/phmap/phmap.h:1803-1821 | the "was never full" test of erase implies that every window with the slot in it has an empty byte |
| `OpenTable.EraseKeeps` | src/utils/phmap/phmap.h:1803-1821 | erase, with the byte its test chooses, keeps the invariant, takes exactly the slot's key out, and adds one to the dead bytes exactly when it leaves a tombstone |
| `OpenTable.ProbeStop` | src/utils/phmap/phmap.h:1697-1710 | an empty byte in the group a lookup has come to means that no later group holds the key |
| `OpenTable.ProbeTarget` | src/utils/phmap/phmap.h:1994-2005 | the first non-full byte of the first group that has one is a place an element of that hash may settle in |
| `OpenTable.MidwayBegin` | src/utils/phmap/phmap.h:1908-1908 | after FULL has become DELETED and the others EMPTY, the table is a half-way rehash of the same map |
| `OpenTable.RearrangeKeeps` | src/utils/phmap/phmap.h:1889-1948 | a permutation of the elements between the slots, each placed or yet to be placed, keeps a half-way rehash of the same map |
| `OpenTable.RehashStep` | src/utils/phmap/phmap.h:1909-1945 | each of the three cases of a rehash step (stay, move to an empty slot, trade with a slot yet to be placed) keeps the half-way rehash, and leaves one byte fewer to place |
| `OpenTable.MidwayEnd` | src/utils/phmap/phmap.h:1889-1948 | when nothing is left to place, the table has no tombstones and every element is findable again |
| `RawHashSet.Table.constructor` | src/utils/phmap/phmap.h:1823-1836 | a new table holds the empty map |
| `RawHashSet.Table.SetCtrl` | src/utils/phmap/phmap.h:2094-2105 | a byte and its clone behind the sentinel are written together, so group loads over the end read the ring |
| `RawHashSet.Table.Group` | src/utils/phmap/phmap.h:1697-1700 | a group load reads the ring's bytes from its offset on, round the end |
| `RawHashSet.Table.SomeEmpty` | src/utils/phmap/phmap.h:492-502 | a valid table has an empty byte: what ends every probe loop |
| `RawHashSet.Table.MatchGroup` | src/utils/phmap/phmap.h:1700-1706 | a hit is a full slot with the key; no hit means no slot of the group with that byte has it |
| `RawHashSet.Table.FindImpl` | src/utils/phmap/phmap.h:1697-1710 | the probe loop ends, and finds the key exactly when the map has it, in a slot that holds it |
| `RawHashSet.Table.FindFirstNonFull` | src/utils/phmap/phmap.h:1994-2005 | the probe loop ends at a slot that is not full, all windows of the hash before it being full |
| `RawHashSet.Table.EraseMetaOnly` | src/utils/phmap/phmap.h:1803-1821 | erase takes exactly the slot's key out of the map and keeps size + dead + growth_left = CapacityToGrowth(capacity) |
| `RawHashSet.Table.Resize` | src/utils/phmap/phmap.h:1858-1887 | a resize to any larger capacity keeps the map and leaves no tombstones |
| `RawHashSet.Table.ConvertCtrl` | src/utils/phmap/phmap.h:470-478 | all bytes, clones included, are converted as the rehash needs |
| `RawHashSet.Table.DropDeletesWithoutResize` | src/utils/phmap/phmap.h:1889-1948 | the in-place rehash keeps the map, leaves no tombstones, and ends |
| `RawHashSet.Table.RehashOne` | src/utils/phmap/phmap.h:1909-1945 | one round of the "repeat at i" loop places one element for good: fewer bytes are left to place |
| `RawHashSet.Table.RehashAndGrowIfNecessary` | src/utils/phmap/phmap.h:1950-1960 | afterwards there is room to grow into, and the map is the same |
| `RawHashSet.Table.FindRoom` | src/utils/phmap/phmap.h:2041-2050 | insertion finds a tombstone, or an empty slot with growth left |
| `RawHashSet.Table.Emplace` | src/utils/phmap/phmap.h:2021-2067 | a key that is absent is inserted: the map gains exactly that entry |
| `RawHashSet.Table.Update` | src/hashtable_access_index.cpp:23-26 | the access index's insert replaces or adds: the map changes at that key alone |
| `RawHashSet.Table.Find` | src/hashtable_access_index.cpp:28-32 | a lookup agrees with the map, value included |
| `RawHashSet.Table.Remove` | src/hashtable_access_index.cpp:34-36 | a removal agrees with the map, and says whether the key was there |
| `Handles.HandleTable.FindPointer` | src/utils/lru_container.cpp:103-111 | the pointer found is the link to the entry of that key in its bucket, or the chain's last link when the map has none |
| `Handles.HandleTable.Lookup` | src/utils/lru_container.cpp:66-68 | lookup agrees with the finite map from keys to handles |
| `Handles.HandleTable.Insert` | src/utils/lru_container.cpp:70-89 | the map gains or replaces exactly that entry, the handle replaced is returned, and elems <= length is kept unless an allocation fails |
| `Handles.HandleTable.Remove` | src/utils/lru_container.cpp:91-101 | the map loses exactly that key, and its handle is returned |
| `Handles.HandleTable.Relink` | src/utils/lru_container.cpp:70-101 | a write through the link found changes that chain behind it and no other |
| `Handles.HandleTable.Resize` | src/utils/lru_container.cpp:113-154 | every handle moves to bucket hash mod length of a new list of at least elems buckets, the map unchanged; the branch for a wrong count cannot be reached |
| `Handles.HandleTable.NewLength` | src/utils/lru_container.cpp:114-119 | the new length is the least power of two from 4 up that is at least elems |
| `Handles.HandleTable.MoveBucket` | src/utils/lru_container.cpp:126-140 | the handles of one bucket are moved to their new chains, none lost, none met twice |
| `LruContainer.LruRemove` | src/utils/lru_container.cpp:172-176 | the handle leaves the circular list, which stays linked both ways round |
| `LruContainer.LruAppend` | src/utils/lru_container.cpp:178-184 | the handle becomes the newest of the list |
| `LruContainer.LRUContainer.Lookup` | src/utils/lru_container.cpp:196-210 | a hit takes a reference, and is that step and no other: the entry leaves the list if it was on it; a miss changes nothing |
| `LruContainer.LRUContainer.Release` | src/utils/lru_container.cpp:212-233 | the last client handle of an entry makes it the newest of the list if the table has it, and frees it, its charge with it, if not; any other leaves it where it is; that is one step of the shard |
| `LruContainer.LRUContainer.Insert` | src/utils/lru_container.cpp:256-294 | the new entry has one reference for the table and one for the caller; the one it replaces is freed unless clients hold it: an entry comes, and then the table lets go of one, or not |
| `LruContainer.LRUContainer.Erase` | src/utils/lru_container.cpp:296-318 | the entry leaves the table, and is freed now or with its last client handle; it does not return to the list |
| `LruContainer.LRUContainer.EvictOneEntry` | src/utils/lru_container.cpp:246-254 | the oldest entry of the list leaves container and table |
| `LruContainer.LRUContainer.Evict` | src/utils/lru_container.cpp:235-244 | the entries that leave are the oldest of the list, no more of them than it takes for their charges to reach the size, or all, the table letting go of them in that order; usage is the sum of charges of what remains owned |
| `LruContainer.EvictLengthIsLeast` | src/utils/lru_container.cpp:235-244 | the number of entries evicted is the least whose charges reach the size, or that of the whole list if they do not |
| `LruContainer.LRUContainer.Prune` | src/utils/lru_container.cpp:325-345 | the list is emptied, oldest first; held entries stay |
| `LruContainer.HeldKeeps` | src/utils/lru_container.cpp:196-210 | taking a handle keeps: every owned entry is in the table or held, and on the list exactly when in the table and not held |
| `LruContainer.ReleasedKeeps` | src/utils/lru_container.cpp:212-233 | so does giving one back |
| `LruContainer.DroppedKeeps` | src/utils/lru_container.cpp:296-318 | so does the table letting go of an entry |
| `LruContainer.AddedKeeps` | src/utils/lru_container.cpp:256-294 | so does a new entry |
| `LruContainer.StepKeeps` | src/utils/lru_container.cpp:166-345 | every step keeps the balance, and loses no entry |
| `LruContainer.WentOn` | src/utils/lru_container.cpp:166-345 | runs of steps go on from one another, so any sequence of operations is one run |
| `LruContainer.LeavesOnce` | src/utils/lru_container.cpp:166-345 | over every run, so over any operations, an entry once owned is owned or gone ever after, never both and never back, and no held entry is on the list |
| `LruContainer.ListedByRecency` | src/utils/lru_container.cpp:166-345 | over every run, so over any operations, the list is in the order in which its entries were last given back: what eviction takes first was let go by its clients longest ago |
| `EvictionPolicy.LruEvictionPolicy.Add` | src/lru_eviction_policy-inl.h:36-45 | a tracked id is the most recent of the list, in the place of any earlier entry of the same id |
| `EvictionPolicy.LruEvictionPolicy.Touch` | src/lru_eviction_policy-inl.h:48-55 | a touched id is held, and off the list that eviction takes from |
| `EvictionPolicy.LruEvictionPolicy.Release` | src/lru_eviction_policy-inl.h:81-84 | releasing the handle makes the id evictable again |
| `EvictionPolicy.LruEvictionPolicy.EvictFor` | src/lru_eviction_policy-inl.h:69-78 | the ids reported are those of the entries that left, oldest first |
| `EvictionPolicy.LruEvictionPolicy.Remove` | src/lru_eviction_policy-inl.h:87-90 | the id is tracked no more |
| `Segments.WrittenHeld` | src/mem_cache.cpp:35-50 | a memory block into which whole-slice segments of the content are entered holds nothing but bytes of the content |
| `Segments.SpanCovers` | src/block_item.h:53-59 | a segment covers all of the content in each slice it is entered under |
| `Segments.ContinuousCovers` | src/star_cache_impl.cpp:481-490 | every byte a gap-free listing reaches is in a listed segment, overlaps included |
| `Segments.PiecesGrow` | src/mem_cache.cpp:52-93 | a run of slices of one segment, cut where the next run begins, extends the pieces read by exactly the bytes in memory |
| `MemCache.MemBlockItem.SetBlockSegment` | src/mem_cache.cpp:130-135 | exactly the slices of the range now belong to the segment |
| `MemCache.MemBlockItem.WriteBlock` | src/mem_cache.cpp:35-50 | later segments lie on top of earlier ones, slice by slice, and all bytes held are still those of the content |
| `MemCache.MemBlockItem.ListSegments` | src/block_item.h:51-59 | the listing has the segments in slice order, one entry for each run of slices |
| `MemCache.ListingIsAll` | src/block_item.h:51-59 | a segment is listed exactly when some slice belongs to it |
| `MemCache.WholeIsHeld` | src/star_cache_impl.cpp:453-461 | the listing reaches from the start of the block to its end, without a gap, exactly when every slice is in memory |
| `MemCache.MemBlockItem.ReadBlock` | src/mem_cache.cpp:52-93 | the pieces returned are in ascending order, have the content's bytes, and cover a byte of the range exactly when its slice is in memory |
| `MemCache.ContinuousSegmentsSize` | src/star_cache_impl.cpp:481-490 | the size of the leading segments that begin where the one before ends |
| `DiskCache.SlicePart` | src/disk_cache.cpp:84-96 | the part of a segment in a slice is that slice's part of the content, whole: writing and reading checksum the same extent |
| `DiskCache.OverwriteExact` | src/disk_cache.cpp:45-59 | a write of some bytes of the content, however short it falls, leaves right exactly the bytes that it reached or that were right before |
| `DiskCache.WholeIff` | src/block_file.cpp:44-87 | a block written in one go is whole exactly when what the write did not reach was right before |
| `DiskCache.DiskBlockItem.UpdateBlockChecksum` | src/disk_cache.cpp:84-96 | exactly the checksums of the segment's slices are set, to those of the content's slices |
| `DiskCache.DiskBlockItem.WriteBlock` | src/disk_cache.cpp:45-59 | an unaligned write is turned down; any other is a success unless the system reports an error, however few bytes reached the file: exactly the bytes reached, or right before, are right, and no checksum is spoilt |
| `DiskCache.DiskBlockItem.Fetch` | src/block_file.cpp:89-114 | a read the system carries out leaves the file's bytes in the buffer; of one that may fall short only the buffer's size is sure |
| `DiskCache.DiskBlockItem.ReadBlock` | src/disk_cache.cpp:61-82 | a read of whole slices that succeeds has the content's bytes, even if a write or the read itself fell short; one the system carries out succeeds exactly when it is aligned and the file has the bytes of its range; a read that ends inside a slice has the content's bytes, if it succeeds, where transfers do not fall short |
| `DiskCache.DiskBlockItem.CheckBlockChecksum` | src/disk_cache.cpp:98-114 | of whole slices, the content's bytes pass, and, if the checksum tells bytes apart, nothing else does |
| `DiskCache.RoundUpFits` | src/aux_funcs.h:59-61 | an aligned read never runs over the block's end, and is longer than asked for at most at the content's end |
| `DiskCache.WriteSegments` | src/star_cache_impl.cpp:519-529 | segments written until one fails: all of them, if the system does as told; then, or if every write that succeeds reaches the file in full, a gap-free listing of the block's size makes the block whole; no write, however it ends, spoils a byte that was right |
| `DiskCache.AllSpanned` | src/star_cache_impl.cpp:453-461 | a contiguous-size match means that every slice of the block is written |
| `CacheItems.Store.ReadBlock` | src/star_cache_impl.cpp:271-315 | a block read of whole slices returns exactly the content of the range or fails; if the system does as told, it succeeds exactly when each byte is in memory or right on disk; if memory has them all, it succeeds in any case; of any range it returns the content or fails where transfers do not fall short |
| `CacheItems.GapIsMissing` | src/star_cache_impl.cpp:284-310 | between two pieces from memory, and behind the last, a byte can be had exactly when the disk block has it |
| `CacheItems.Store.AttachDisk` | src/block_item.h:86-90 | only a disk block with the content's checksums is attached, which has the whole content unless a write fell short; no other block is touched |
| `CacheItems.Store.FullInMemory` | src/star_cache_impl.cpp:144-172 | a block with all its slices in memory can be had in full |
| `CacheItems.Store.FullOnDisk` | src/star_cache_impl.cpp:173-189 | so can one on disk, unless a write fell short |
| `CacheItems.Store.TakeOver` | src/star_cache_impl.cpp:134-134 | a new object's blocks join the others, and of all of them there is what there was |
| `CacheItems.BlockStarts` | src/cache_item.h:46-57 | each block begins within the object and has between one and block_size bytes |
| `ReadRange.Bounds` | src/star_cache_impl.cpp:242-252 | the aligned range contains the range asked for exactly when the last slice ends within 32 bits |
| `ReadRange.AnswerPrefix` | src/star_cache_impl.cpp:232-269 | whatever wraps, at 32 bits or at 64, a read's answer is a first part of the range asked for, cut off at the object's end: too short at worst, never other bytes |
| `ReadRange.AnswerExact` | src/star_cache_impl.cpp:232-269 | over all 64-bit offsets and sizes, a read's answer is all of the range asked for, cut off at the object's end, if and only if: nothing of it is there or its last slice ends within 32 bits; or, should offset + size wrap to a place within the object, the offset is past the object or the wrapped last byte's slice reaches the object's end |
| `ReadRange.AnswerShort` | src/aux_funcs.h:43-53 | an object of 4 GiB and a byte, asked for whole, is answered with its first slice |
| `ReadRange.AnswerSlips` | src/star_cache_impl.cpp:235-269 | asked for 2^64 - 1 bytes from its third slice on, an object of one block is answered with nothing, and success |
| `ReadRange.ReadSlips` | src/star_cache_impl.cpp:235-269 | asked for 2^64 - 131072 bytes from its fourth slice on, it cannot be read, whatever there is of it |
| `ReadRange.ExactNotNegative` | src/star_cache_impl.cpp:235-262 | a read that would be answered in full asks no block for a negative number of bytes, unless it slips from past the object |
| `ReadRange.WholeAnswer` | src/star_cache_impl.cpp:199-213 | an object asked for whole is answered whole if and only if it is empty or its last slice ends within 32 bits |
| `ReadRange.NarrowWithin` | src/aux_funcs.h:43-53 | the last slice does end within 32 bits if it starts a whole slice below 4 GiB, or below 4 GiB where slices tile the 32-bit offsets |
| `ReadRange.RangeAligned` | src/star_cache_impl.cpp:242-252 | both ends of the aligned range are slice boundaries, or the upper one the object's end, if no slice wraps at 32 bits or slices tile the 32-bit offsets |
| `ReadRange.BlockRange` | src/star_cache_impl.cpp:254-262 | the range's part in a block has the object's bytes, and begins and ends with a slice if the range does |
| `ReadRange.RangeIsBytes` | src/star_cache_impl.cpp:254-262 | the blocks of a range can all be read exactly when each byte of it can be had |
| `ReadRange.AnswerableStill` | src/star_cache_impl.cpp:232-269 | what can be read goes on to be while no block loses anything |
| `StarCache.StarCacheImpl.RemoveCacheItem` | src/star_cache_impl.cpp:334-352 | the index loses that id alone; nothing is attached to the item's blocks, and of every other block there is what there was |
| `StarCache.StarCacheImpl.ClearDiskBlocks` | src/cache_item.h:117-122 | the item's blocks have no disk blocks any more; no other block is touched |
| `StarCache.StarCacheImpl.ReleaseIfEmpty` | src/cache_item.h:94-107 | an item leaves the index exactly when nothing is attached to it and it was not released before; no block gains or loses anything |
| `StarCache.StarCacheImpl.ProcessEvictedDiskItems` | src/star_cache_impl.cpp:655-673 | the items of the evicted ids, up to the first the index does not know, and no others lose their disk blocks, all of them; of those ids the index forgets exactly the ones whose item has nothing in memory; memory is not touched |
| `StarCache.StarCacheImpl.AllocDiskBlock` | src/star_cache_impl.cpp:704-717 | with space enough a new disk block of the right sizes is granted and nothing is evicted for it; else evictions come first, and of memory nothing goes |
| `StarCache.StarCacheImpl.FlushBlockSegments` | src/star_cache_impl.cpp:492-540 | memory's copy is dropped whatever happens; if the system does as told, and a disk block is granted where a new one is needed, it succeeds and nothing the block had is lost; success means the whole block is on disk, unless a write fell short; a block that was on disk stays there with all that it had there, and no other block is touched then |
| `StarCache.StarCacheImpl.FlushBlock` | src/star_cache_impl.cpp:423-479 | a released item, a block without memory and a skip: nothing changes at all; delete, and a flush of a partial block that is not on disk: cleared, the item leaving the index exactly if that was the last of it, no other block touched; a flush of a block on disk: there it stays, with all it had there, and with all that memory had if the system does as told; a flush of a whole one: on disk exactly if it succeeds, and on disk in full if a disk block is granted and the system does as told |
| `StarCache.StarCacheImpl.DropBlock` | src/star_cache_impl.cpp:471-479 | the block is cleared, and of every other block there is what there was |
| `StarCache.StarCacheImpl.EvictMemBlock` | src/star_cache_impl.cpp:611-642 | a stale key changes nothing at all; memory that was not written to, of a block on disk, is given back, the disk block kept; a pinned block without a disk layer, and a skipped one, stay as they are; an unpinned one without a disk layer, or one to be deleted, is cleared, the item leaving the index exactly if that was the last of it; any other goes to disk: over what it has there, keeping that, and what memory had if the system does as told, or, if it is whole, to a new disk block in full, if one is granted and the system does as told; if it is neither, it is cleared |
| `StarCache.StarCacheImpl.ProcessEvictedMemBlocks` | src/star_cache_impl.cpp:611-642 | every block that a key named and that its item and the policy let go is out of memory afterwards; the index has only lost ids of items with nothing in memory, and memory only blocks |
| `StarCache.StarCacheImpl.PromoteBlockSegments` | src/star_cache_impl.cpp:542-588 | what memory granted of the segments read from disk lies on top of what memory had; with space enough all of it is granted, and nothing that could be had is lost, of this block or of others |
| `StarCache.StarCacheImpl.AllocBlockSegment` | src/star_cache_impl.cpp:689-702 | the segment granted has the offset, size and bytes asked for; with space enough it is granted and nothing is evicted; else evictions come first and keep the cache right |
| `StarCache.StarCacheImpl.NewCacheItem` | src/mem_cache.cpp:95-109 | the item's blocks are the consecutive parts of its value |
| `StarCache.StarCacheImpl.AlignBuffer` | src/star_cache_impl.cpp:147-163 | the buffer, padded to whole units, is a segment that fits the block |
| `StarCache.StarCacheImpl.WriteBlock` | src/star_cache_impl.cpp:138-197 | given space, a block with a place is written, if the system writes what is to go to disk: in memory a new dirty block, whole, or a disk block; without a place it fails; success means the block can be read in full, unless a write fell short; of the object's other blocks there is what there was, and, with space enough, of all others |
| `StarCache.StarCacheImpl.WriteCacheItem` | src/star_cache_impl.cpp:110-136 | given space, a place for every block and a system that does as told, the item is written; the index learns of it exactly when every block is; with space enough, of every block there was there is what there was |
| `StarCache.StarCacheImpl.Set` | src/star_cache_impl.cpp:74-108 | a value that is not empty is stored if there is space, every block has a place, the system does as told, the cache is not too busy and the id is absent or may be overwritten; stored: the key's value is the one set, complete unless a write fell short; existing id without overwrite, empty value or too busy: nothing changes at all; refused otherwise: the id finds nothing; with space enough, of every object but the one replaced there is what there was |
| `StarCache.StarCacheImpl.ReadBlock` | src/star_cache_impl.cpp:271-315 | the content of the range, or failure; of whole slices, and if the system does as told, it succeeds exactly when each byte can be had, promotion or not; what memory has is read whatever the system does, and nothing changes then; what was promoted, given space, is in memory afterwards |
| `StarCache.StarCacheImpl.ReadBlocks` | src/star_cache_impl.cpp:254-262 | the blocks of the range in order give the object's bytes of the aligned range; if the system does as told, exactly when each part can be had, and, if memory has them all, in any case |
| `StarCache.StarCacheImpl.ReadCacheItem` | src/star_cache_impl.cpp:232-269 | a read that succeeds gives the answer of the object's value, if it reads no slice in part or transfers do not fall short; of whole slices, and if the system does as told, it succeeds exactly when all parts can be had, with promotion as without, given space; if memory has them all, it succeeds in any case and changes nothing |
| `StarCache.StarCacheImpl.Read` | src/star_cache_impl.cpp:215-230 | a successful read returns what the key was last set to, after any flushes, promotions and evictions and even when two keys share an id: a first part of the range asked for, and all of it exactly when `ReadRange.Exact` says so; if the system does as told it succeeds exactly when all it needs can be had, promotion or not, given space; if memory has it all, whatever the system and the policy do, and without any change; with space enough, nothing that could be had of any object is lost |
| `StarCache.StarCacheImpl.ReadTwice` | src/star_cache_impl.cpp:215-315 | what was read once with every block promoted, given space, is read again with the same bytes, even if the disk then fails and whatever is promoted then |
| `StarCache.StarCacheImpl.StillAnswered` | src/star_cache_impl.cpp:215-230 | what could be read of an object before such a read can be read after it |
| `StarCache.StarCacheImpl.Get` | src/star_cache_impl.cpp:199-213 | a successful get returns a first part of the value last set, and all of it exactly when its last slice ends within 32 bits; it succeeds exactly when the object can be answered, as for a read |
| `StarCache.StarCacheImpl.Remove` | src/star_cache_impl.cpp:317-332 | the key finds nothing any more, and nothing is attached to its blocks; of every other object there is what there was, even if its key has the same id |
| `StarCache.StarCacheImpl.SetPinned` | src/star_cache_impl.cpp:354-400 | no pinned mark changes but that of the key's own item, and nothing else does |
| `StarCache.StarCacheImpl.CompleteIsAnswerable` | src/star_cache_impl.cpp:232-269 | a read of an object whose blocks can all be had succeeds exactly when it does not ask a block for a negative number of bytes; one that `ReadRange.Exact` allows succeeds and is answered in full, unless its end wraps from past the object |
| `StarCache.StarCacheImpl.SetThenGet` | src/star_cache_impl.cpp:74-213 | given space, a place for every block and a system that does as told, the set stores, and the get returns the value, its last slice being within 32 bits; after any set that stores, if a write fell short, the get fails or returns a first part of the value |
| `StarCache.StarCacheImpl.EvictStored` | src/star_cache_impl.cpp:423-642 | where there is a disk layer, the policy flushes or the item is pinned, a disk block is granted and writes do not fall short, a complete item is complete after one of its blocks was evicted from memory, and that block is out of it |
| `StarCache.StarCacheImpl.SetThenEvictThenGet` | src/star_cache_impl.cpp:74-642 | a value stored in ample space and then evicted from memory block by block comes back byte for byte, from disk |
| `StarCache.StarCacheImpl.RemoveThenRead` | src/star_cache_impl.cpp:215-332 | after one key is removed, it finds nothing, and a read of another, even one with the same id, succeeds exactly when it would have, if it reads no slice in part, with the bytes last set |
| `StarCache.StarCacheImpl.SetThenRead` | src/star_cache_impl.cpp:74-230 | so it does after a set of a key with another id, where there is space for it, whether the set succeeds or not; the set stores as `Set` says |
| `DirRouter.CacheDirRouter.NextDirIndex` | src/disk_space_manager.cpp:186-205 | the pick is the enabled directory with the most after the bump, of several the first; every enabled one gains its weight, and the pick pays what all gained; none exactly when none is enabled, and nothing changes then |
| `DirRouter.CacheDirRouter.AddDirWeight` | src/disk_space_manager.cpp:176-183 | only that directory gains, by the weight given, and it is enabled |
| `DirRouter.RoundsDetermined` | src/disk_space_manager.cpp:186-205 | the weights decide every pick: two runs of as many picks from the same start are the same |
| `DirRouter.RunConserves` | src/disk_space_manager.cpp:163-205 | over any interleaving of joins, picks, refusals, disablings and gains, the current weights add up to the weights and all that was gained |
| `DirRouter.CurAfter` | src/disk_space_manager.cpp:186-205 | after t picks of which c were its own, a directory's current weight is (1 + t)·w − W·c |
| `DirRouter.BoundedLag` | src/disk_space_manager.cpp:186-205 | with k enabled directories from the start state, every current weight stays above −W and at most kW, and equals kW exactly when k is 1 |
| `DirRouter.NoneOverShare` | src/disk_space_manager.cpp:186-205 | within a round no directory is picked more often than its share |
| `DirRouter.ExactlyFair` | src/disk_space_manager.cpp:186-205 | after W/g picks, g any common divisor of the weights, each directory was picked exactly w/g times and all current weights are back at the start |
| `DirRouter.FairForever` | src/disk_space_manager.cpp:186-205 | and so for any number of rounds |
| `CacheDirs.FindFirst` | src/disk_space_manager.cpp:42-56 | the index is set, and no lower one is |
| `CacheDirs.MarkOne` | src/disk_space_manager.cpp:42-70 | marking one bit makes that block and no other live or free |
| `CacheDirs.NothingQueued` | src/disk_space_manager.cpp:42-56 | the queue is empty exactly when every block is given out |
| `CacheDirs.CacheDir.InitFreeSpaceList` | src/disk_space_manager.cpp:97-120 | every block is free, each space that has blocks queued once, the short last one included |
| `CacheDirs.CacheDir.AllocBlock` | src/disk_space_manager.cpp:42-56 | a block handed out was not live, and lies in the space at the queue's head; none exactly when all are live |
| `CacheDirs.CacheDir.FreeBlock` | src/disk_space_manager.cpp:58-70 | exactly that block is free again; a space is queued exactly once while it has free blocks |
| `BlockFiles.Layout.InitBlockFiles` | src/disk_space_manager.cpp:122-143 | full files, and a short one for the rest of the quota |
| `BlockFiles.FilesFillQuota` | src/disk_space_manager.cpp:122-143 | the files add up to the quota |
| `BlockFiles.Layout.Flat` | src/disk_space_manager.h:54-63 | laid end to end, the files have block after block: file and offset are the quotient and remainder of the block's place |
| `BlockFiles.Layout.InsideFiles` | src/disk_space_manager.h:54-63 | a transfer within a block stays inside a file there is, short last file included |
| `BlockFiles.Layout.NoOverlap` | src/disk_space_manager.h:54-63 | a place in the files belongs to one byte of one block |
| `BlockFiles.Layout.TransfersDisjoint` | src/block_file.cpp:50-108 | aligned transfers of distinct blocks touch different bytes, all inside the files |
| `DiskSpace.DiskSpaceManager.AddCacheDir` | src/disk_space_manager.cpp:207-214 | a directory joins with its quota as weight and current weight, and no block given out |
| `DiskSpace.DiskSpaceManager.Propose` | src/disk_space_manager.cpp:216-234 | one round of the retry loop: a block of the directory proposed, or one directory fewer enabled |
| `DiskSpace.DiskSpaceManager.AllocBlock` | src/disk_space_manager.cpp:216-234 | the block is new, in the first directory the router proposes that is not full; failure exactly when all are full; the retry loop ends |
| `DiskSpace.DiskSpaceManager.FreeBlock` | src/disk_space_manager.cpp:236-242 | exactly that block is given back, and its directory gains a block's size in the router and is enabled |
| `DiskSpace.Books.WithinQuota` | src/disk_space_manager.cpp:216-242 | used bytes are block_size times the live blocks, never over the quota, and as many as fit exactly when all are full |
| `DiskSpace.Books.GiveKeeps` | src/disk_space_manager.cpp:216-234 | giving out a block that was free keeps the books |
| `DiskSpace.Books.TakeBackKeeps` | src/disk_space_manager.cpp:236-242 | so does taking one back |
| `MemSpace.MemSpaceManager.AddCacheZone` | src/mem_space_manager.cpp:24-28 | the quota grows by the zone, and nothing else changes |
| `MemSpace.MemSpaceManager.IncMem` | src/mem_space_manager.cpp:30-47 | a request that draws on what was set aside is granted; any other exactly if 100 times all that is then granted, and one byte, is within threshold times what is not set aside; what each outcome does to the quantities; what is used is the sum of live grants |
| `MemSpace.MemSpaceManager.DecMem` | src/mem_space_manager.cpp:49-60 | what is freed goes to the requests still owed first: what is owed falls by it, down to nothing, and what is set aside grows by as much |
| `MemSpace.RunBounded` | src/mem_space_manager.cpp:30-60 | over every run with a threshold up to 100, used and private bytes together stay within the quota |
| `MemSpace.NoneTurnedDown` | src/mem_space_manager.cpp:24-60 | in every run from nothing in which live grants and the request stay below the threshold's share of the zones, no request is turned down, and nothing is set aside |
| `MemSpace.FreedIsSetAside` | src/mem_space_manager.cpp:30-60 | whatever happens in between, what is freed is set aside until all that was owed is, less what urgent requests drew |
| `MemSpace.TryAgain` | src/mem_space_manager.cpp:30-60 | a refused request is granted when asked again urgently, once as much as was owed has been freed and nobody drew on it |
| `Blocking.BlockingQueue.BlockingGet` | src/utils/blocking_queue.hpp:55-69 | one step of a getter: if there is an item, the oldest is returned and leaves the queue; if not, it gives up after a shutdown, or sleeps, and the queue stays as it is |
| `Blocking.BlockingQueue.ResumeGet` | src/utils/blocking_queue.hpp:55-69 | the step after a wakeup: the condition is looked at again, with the same outcomes |
| `Blocking.BlockingQueue.TryGet` | src/utils/blocking_queue.hpp:74-87 | the oldest item is returned and leaves the queue; if there is none, it says whether the queue is shut |
| `Blocking.BlockingQueue.BlockingPut` | src/utils/blocking_queue.hpp:90-111 | one step of a putter: with room and no shutdown the value goes behind all others; else the queue stays as it is, and the putter gives up after a shutdown, or sleeps with its value |
| `Blocking.BlockingQueue.ResumePut` | src/utils/blocking_queue.hpp:90-111 | the step after a wakeup, with the value slept on |
| `Blocking.BlockingQueue.TryPut` | src/utils/blocking_queue.hpp:113-121 | adds behind all others exactly when there is room and no shutdown; else the queue stays as it is |
| `Blocking.BlockingQueue.Shutdown` | src/utils/blocking_queue.hpp:124-130 | everyone asleep is signalled, and the items stay |
| `Blocking.NextKeeps` | src/utils/blocking_queue.hpp:55-130 | every step, spurious wakeups included, keeps: items within capacity; while a getter sleeps, signalled getters are at least the items, and putters likewise against free room; no sleeper after a shutdown |
| `Blocking.NextMoves` | src/utils/blocking_queue.hpp:55-121 | what a step's call returns, and then what is in the queue, is what was in it and then what the call accepts |
| `Blocking.FirstInFirstOut` | src/utils/blocking_queue.hpp:55-121 | wherever a run has come to, the values its calls returned are the values its calls accepted, in order and each once, less what is in the queue |
| `Blocking.NoLostWakeup` | src/utils/blocking_queue.hpp:55-130 | nobody sleeps past an item, or past room, unless another has been signalled for it |
| `Blocking.NeverStuck` | src/utils/blocking_queue.hpp:55-130 | with room for anything, getters and putters are never all asleep |
| `Blocking.StuckWithoutRoom` | src/utils/blocking_queue.hpp:51-51 | with a capacity of 0, one getter and one putter are |
| `BTreeNode.Node.RebalanceRightToLeft` | src/utils/phmap/btree.h:1954-1991 | keys and children move as they should, in place, through the parent's slot; every slot is initialised when read and none twice |
| `BTreeNode.Node.RebalanceLeftToRight` | src/utils/phmap/btree.h:1994-2062 | the same to the right, whether the keys that come fit over the right node's own or reach beyond them |
| `BTreeNode.Node.Split` | src/utils/phmap/btree.h:2065-2102 | the node keeps its first keys, the new one has its last, the parent the one between and the new child |
| `BTreeNode.Node.Merge` | src/utils/phmap/btree.h:2105-2132 | the left node has both nodes' keys and the one between, which the parent loses with its child |
| `BTreeNode.Node.EmplaceValue` | src/utils/phmap/btree.h:1913-1931 | keys from the position on move up by one; above the leaves, children behind it too |
| `BTreeNode.Node.RemoveValue` | src/utils/phmap/btree.h:1934-1951 | the key, and the child to its right, are closed over |
| `BTree.FlatJoin` | src/utils/phmap/btree.h:1954-2132 | two siblings and the key between them have the same keys in order as the node that joins them |
| `BTree.RankJoin` | src/utils/phmap/btree.h:2642-2736 | a position in either of them has the rank of its position in the joined node |
| `BTree.KeyThere` | src/utils/phmap/btree.h:1374-1374 | the key an iterator refers to is the one at its rank |
| `BTree.SameJoined` | src/utils/phmap/btree.h:2642-2736 | moving the boundary between two siblings keeps the whole tree's key sequence, the place's rank and the child there |
| `BTree.RoomFromLeft` | src/utils/phmap/btree.h:2651-2676 | exactly when the left sibling has room to take keys it does; the place is the same and there is room at it; nodes stay filled |
| `BTree.RoomFromRight` | src/utils/phmap/btree.h:2678-2701 | the same for the right sibling |
| `BTree.SplitNode` | src/utils/phmap/btree.h:2720-2735 | after a split the place is the same and there is room at it |
| `BTree.RebalanceOrSplit` | src/utils/phmap/btree.h:2642-2736 | in every branch, parents split recursively and a new root included: the same keys in order, the same rank, the same child, and room for one more; nothing above changes when a sibling has room; no node is left without a key |
| `BTree.ToLeaf` | src/utils/phmap/btree.h:2214-2220 | behind the key that precedes an internal position: in a leaf, at the same rank |
| `BTree.InternalEmplace` | src/utils/phmap/btree.h:2836-2862 | wherever the iterator is, the key goes in at its rank, in a leaf with room for it, and all other keys stay in order; a root smaller than a full node grows instead of splitting; no node is left without a key |
| `BTree.TryMergeOrRebalance` | src/utils/phmap/btree.h:2750-2798 | merges exactly if the node and a sibling, with the key between them, fit in one; keeps the keys in order and the place; a node that has a sibling is not left without keys |
| `BTree.MergeUp` | src/utils/phmap/btree.h:2465-2493 | so does the walk up, and the root giving way to its only child |
| `BTree.NextKey` | src/utils/phmap/btree.h:2180-2190 | from a node's end to the next key further up, at the same rank; nowhere exactly at the tree's end |
| `BTree.RebalanceAfterDelete` | src/utils/phmap/btree.h:2465-2502 | the same keys in order, the iterator handed back refers to the key that followed what was removed, or to the tree's end, and no node is left without a key |
| `BTree.EraseFromLeaf` | src/utils/phmap/btree.h:2565-2576 | exactly the keys from the place on are gone, as many as asked for, the iterator refers to the one after them, and no node is left without a key |

## Left out

- Whole operations are atomic everywhere but in the queue: mutexes, lock gaps and memory ordering are not modelled.
- The queue's second form without a bound, and which of several sleepers a notification picks (any may be picked here).
- `StarCache.StarCacheImpl.WriteCacheItem`: does not model a failed allocation of the cache item itself, which the source does not handle (src/star_cache_impl.cpp:115-117); the item is granted after any number of evictions.
- `StarCache.StarCacheImpl.ProcessEvictedDiskItems`: does not claim that every evicted id is processed, because the source returns at the first id the index does not know.
- `StarCache.StarCacheImpl.SetPinned`: models the mark on the item only; which blocks the LRU containers track is an arbitrary choice at each eviction.
- `StarCache.StarCacheImpl.SetThenRead`: says nothing of objects that an allocation evicts, because which those are, and how many of the retries evict any, are arbitrary choices.
- `StarCache.StarCacheImpl.Read`: where slices do not divide 2^32, a range narrowed to 32 bits may begin or end inside a slice (`ReadRange.Even` does not hold). Such a read is modelled without promotion only, which would put a part of a slice in memory; it is said to succeed only where memory has all of it, and its bytes are not said to be right where transfers fall short, because the disk cache compares the part with the checksum of the whole slice.
- `StarCache.StarCacheImpl.ReadCacheItem`: a read of a negative number of bytes from a block (`ReadRange.Negative`) is modelled as a plain failure; the source's disk cache cuts that number to 32 bits, and may read past the block and look past its checksums before it reports the error (src/star_cache_impl.cpp:297-303, src/disk_cache.cpp:98-105).
- Slice and block indexes are unbounded numbers before they are narrowed; in the source they are 32-bit ones, whose overflow is taken to wrap, and objects of 2^32 blocks or more are not modelled (src/aux_funcs.h:31-53, src/star_cache_impl.cpp:121-124).
- `StarCache.StarCacheImpl.AllocDiskBlock`: that live disk blocks share no bytes of a file is not derived here, where each is an object of its own, but in `DiskSpace.DiskSpaceManager.AllocBlock` and `BlockFiles.TransfersDisjoint`.
- `DiskCache.DiskBlockItem.ReadBlock`: where transfers fall short, relies on a checksum that tells bytes apart; CRC-32 is not quite that, and without checksums wrong bytes would go unnoticed.
- `RawHashSet.Table.constructor`: does not model tables smaller than a group, growth by anything but doubling, or the shrinking of a table.
- `Handles.HandleTable.NewLength`: lengths and counts are unbounded numbers; the source's are 32 bits wide.
- `EvictionPolicy.LruEvictionPolicy.EvictFor`: one shard only; routing by hash over shards, and the eviction that visits all of them, are not modelled.
- `DiskSpace.DiskSpaceManager.AllocBlock`: directory indexes are unbounded numbers; the source's are 8 bits wide.
- `MemSpace.MemSpaceManager.IncMem`: sums of byte counts, and the product with the threshold, are unbounded numbers; the source's have 64 bits (src/mem_space_manager.cpp:31-49), as do charges and router weights, and quotas are taken to be far below that.
- `MemSpace.MemSpaceManager.DecMem`: asks that what is freed was granted; the source relies on its callers for it.
- `BTree.RebalanceOrSplit`: works on trees as values, the iterator being a node with what is above and beside it; nodes that change in place are in `BTreeNode`, where children are plain values and their links back to the parent are not modelled.
- `BTree.EraseFromLeaf`: erasure from leaves only; a key in an internal node is overwritten with the one before it, which then leaves its leaf, and a range in an internal node takes subtrees along (src/utils/phmap/btree.h:2429-2463, 2532-2563).
- Expiry times: stored by the source and not looked at in the code modelled.
- File and direct I/O, buffers' reference counts, alignment of addresses, `readv` and `writev`, directory cleaning, logging and status messages.
- Vector instructions (a group match is the set of matching positions), iterators, copying, serialisation and allocator plumbing of the hash table; B-tree search, iterators and range erasure.
- Values and deleters of LRU entries; keys are byte strings with a given hash.
- The quality of hashes, admission and promotion probabilities, the tester tool, `DBDHashMap`.
