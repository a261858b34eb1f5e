/** The cache as a whole: objects set, read and removed by key, their blocks held in memory and on
    disk, and moved between the two by flush, promotion and eviction.  Which entries an eviction
    picks, where a block is written, whether an allocation or a disk write succeeds and what the
    admission and promotion policies say are arbitrary choices (`*`). */
module StarCache {
  import opened Common
  import opened Segments
  import opened MemCache
  import opened DiskCache
  import opened CacheItems
  import opened ReadRange

  class CacheItem {
    const key: Key
    const size: uint64
    const blocks: seq<BlockItem>
    ghost const value: Buffer
    var pinned: bool
    var released: bool

    constructor (key: Key, size: uint64, blocks: seq<BlockItem>, ghost value: Buffer)
      ensures this.key == key && this.size == size && this.blocks == blocks && this.value == value
      ensures !pinned && !released
    {
      this.key, this.size, this.blocks, this.value := key, size, blocks, value;
      pinned, released := false, false;
    }
  }

  /** The item's blocks stand for the consecutive parts of its value. */
  ghost predicate ItemOk(z: Sizes, known: set<BlockItem>, it: CacheItem) {
    && z.Valid() && 0 < |it.value| == it.size
    && |it.blocks| == BlockCount(z, it.size)
    && (forall i, j :: 0 <= i < j < |it.blocks| ==> it.blocks[i] != it.blocks[j])
    && forall i :: 0 <= i < |it.blocks| ==>
         it.blocks[i] in known && i * z.block < |it.value| && it.blocks[i].content == BlockContent(z, it.value, i)
  }

  /** No two items have a block in common. */
  ghost predicate NoShared(items: set<CacheItem>) {
    forall x, y, b :: x in items && y in items && b in x.blocks && b in y.blocks ==> x == y
  }

  /** What the admission policy says of a block to be evicted from memory. */
  datatype Admission = FLUSH | SKIP | DELETE

  /** Where the promotion policy wants a block written, if anywhere. */
  datatype BlockLocation = NONE | MEM | DISK

  datatype SetStatus = Stored | Exists | Refused

  class StarCacheImpl {
    const store: Store
    const keyToId: Key -> nat
    const hasDiskLayer: bool
    const maxRetry: nat
    var index: map<nat, CacheItem>
    ghost var items: set<CacheItem>
    ghost var latest: map<Key, Buffer>  // what each key was last set to, and not since removed

    ghost function Parts(): set<object>
      reads this, store
    {
      {store} + items + store.blocks + store.own.Keys
    }

    /** Everything that is the cache's. */
    ghost function Mine(): set<object>
      reads this, store
    {
      {this} + Parts()
    }

    ghost predicate Valid()
      reads this, Parts()
    {
      && Addressable(store.z) && store.Valid() && Separate() && NoShared(items)
      && (forall it :: it in items ==> ItemOk(store.z, store.blocks, it))
      && IndexOk(index)
    }

    ghost predicate Separate()
      reads `items, store`blocks, store`own
    {
      && this !in store.own && store !in store.own
      && (forall it: CacheItem :: it in items ==> it !in store.own)
      && (forall b: BlockItem :: b in store.blocks ==> b !in store.own)
    }

    /** What the index finds under an id is an unreleased item of that id, with the bytes last set
        for its key. */
    ghost predicate IndexOk(ix: map<nat, CacheItem>)
      reads `items, `latest, items`released
    {
      forall id :: id in ix ==>
        && ix[id] in items && !ix[id].released
        && keyToId(ix[id].key) == id
        && ix[id].key in latest && latest[ix[id].key] == ix[id].value
    }

    /** All is well but for what the index may find under this id. */
    ghost predicate ValidBut(id: nat)
      reads this, Parts()
    {
      && Addressable(store.z) && store.Valid() && Separate() && NoShared(items)
      && (forall it :: it in items ==> ItemOk(store.z, store.blocks, it))
      && IndexOk(index - {id})
    }

    constructor (z: Sizes, medium: Medium, keyToId: Key -> nat, hasDiskLayer: bool, maxRetry: nat)
      requires Addressable(z) && medium.Trusted()
      ensures Valid() && index == map[] && latest == map[] && store.z == z && store.medium == medium
      ensures fresh(Parts())
    {
      store := new Store(z, medium);
      this.keyToId, this.hasDiskLayer, this.maxRetry := keyToId, hasDiskLayer, maxRetry;
      index, items, latest := map[], {}, map[];
    }

    lemma BlockOfItem(it: CacheItem, i: nat)
      requires forall it :: it in items ==> ItemOk(store.z, store.blocks, it)
      requires it in items && i < |it.blocks|
      ensures it.blocks[i] in store.blocks
    {}

    lemma BlocksKnown(it: CacheItem)
      requires forall it :: it in items ==> ItemOk(store.z, store.blocks, it)
      requires it in items
      ensures forall b :: b in it.blocks ==> b in store.blocks
    {}

    /** What there is of the item, block by block. */
    ghost function Have(it: CacheItem): (stocks: seq<Stock>)
      reads store, store.blocks, store.own.Keys
      ensures |stocks| == |it.blocks|
    {
      Shown(store.Holdings(), it.blocks)
    }

    // ----- Removal -------------------------------------------------------------------------------------

    /** _remove_cache_item: out of the index, and nothing attached to its blocks any more. */
    method RemoveCacheItem(id: nat, it: CacheItem)
      requires ValidBut(id) && it in items
      modifies `index, it.blocks`mem, it.blocks`disk
      ensures Valid() && index == old(index) - {id}
      ensures Empty(it) && store.Holdings() - BlocksOf(it) == old(store.Holdings()) - BlocksOf(it)
    {
      hide ItemOk, NoShared, Store.Valid, Store.StockOf, Store.Holdings;
      index := index - {id};
      ClearBlocks(it);
    }

    method ClearBlocks(it: CacheItem)
      requires Valid() && it in items
      modifies it.blocks`mem, it.blocks`disk
      ensures Valid() && Empty(it)
      ensures store.Holdings() - BlocksOf(it) == old(store.Holdings()) - BlocksOf(it)
    {
      hide ItemOk, NoShared, IndexOk, Store.Valid, Store.StockOf, Store.Holdings;
      for i := 0 to |it.blocks|
        invariant Valid() && store.Holdings() - BlocksOf(it) == old(store.Holdings()) - BlocksOf(it)
        invariant forall j :: 0 <= j < i ==> it.blocks[j].mem == null && it.blocks[j].disk == null
      {
        BlockOfItem(it, i);
        ghost var before := store.Holdings();
        ClearBlock(it.blocks[i]);
        SameButMore(before, store.Holdings(), it.blocks[i], BlocksOf(it));
      }
    }

    static ghost function BlocksOf(it: CacheItem): set<BlockItem> {
      set b | b in it.blocks
    }

    /** clear_disk_blocks */
    method ClearDiskBlocks(it: CacheItem)
      requires Valid() && it in items
      modifies it.blocks`disk
      ensures Valid() && forall b :: b in it.blocks ==> b.disk == null
    {
      hide ItemOk, NoShared, IndexOk, Store.Valid;
      for i := 0 to |it.blocks|
        invariant Valid() && forall j :: 0 <= j < i ==> it.blocks[j].disk == null
      {
        BlockOfItem(it, i);
        store.DropDisk(it.blocks[i]);
      }
    }

    /** Nothing is attached to the item's blocks. */
    ghost predicate Empty(it: CacheItem)
      reads it.blocks
    {
      forall i :: 0 <= i < |it.blocks| ==> it.blocks[i].mem == null && it.blocks[i].disk == null
    }

    /** release_if_empty, and the removal that follows when it says so: an item that has nothing left
        leaves the index, and only such an item does. */
    method ReleaseIfEmpty(id: nat, it: CacheItem)
      requires Valid() && it in items && id == keyToId(it.key)
      modifies `index, it`released, it.blocks`mem, it.blocks`disk
      ensures Valid() && it.released == (old(it.released) || old(Empty(it)))
      ensures index == if !old(it.released) && old(Empty(it)) then old(index) - {id} else old(index)
      ensures forall b :: b in it.blocks ==> b.mem == old(b.mem) && b.disk == old(b.disk)
      ensures store.Holdings() == old(store.Holdings()) && Mems() == old(Mems())
    {
      hide ItemOk, NoShared, Store.Valid, Store.StockOf, Store.Holdings, Store.NoStock;
      if it.released {
        return;
      }
      for i := 0 to |it.blocks|
        invariant forall j :: 0 <= j < i ==> it.blocks[j].mem == null && it.blocks[j].disk == null
      {
        if it.blocks[i].mem != null || it.blocks[i].disk != null {
          return;
        }
      }
      store.AllHoldings();
      store.EmptyStocks(it.blocks);
      it.released := true;
      RemoveCacheItem(id, it);
      store.EmptyStocks(it.blocks);
      store.HoldingsSame(old(store.Holdings()));
    }

    // ----- Eviction ------------------------------------------------------------------------------------

    /** The memory block, and the disk block, of every block. */
    ghost function Mems(): map<BlockItem, MemBlockItem?>
      reads store`blocks, store.blocks`mem
    {
      map b | b in store.blocks :: b.mem
    }

    ghost function Disks(): map<BlockItem, DiskBlockItem?>
      reads store`blocks, store.blocks`disk
    {
      map b | b in store.blocks :: b.disk
    }

    /** _process_evicted_disk_items: takes their disk blocks from the items of the first n ids, up to one
        the index does not know (any more), and of an item of which memory has nothing the index forgets
        the id.  Memory is not touched, nor any other item. */
    method ProcessEvictedDiskItems(evicted: seq<nat>) returns (n: nat)
      requires Valid()
      modifies `index, items`released, store.blocks`mem, store.blocks`disk
      ensures Valid() && index.Items <= old(index).Items
      ensures n <= |evicted| && forall k :: 0 <= k < n ==> evicted[k] in old(index)
      ensures n < |evicted| ==> evicted[n] !in index
      ensures Mems() == old(Mems()) && Disks() == Without(old(Disks()), BlocksUnder(old(index), evicted[..n]))
      ensures forall id :: id in old(index) ==>
                (id in index <==> id !in evicted[..n] || AnyIn(old(Mems()), old(index)[id].blocks))
      ensures Shrunk(old(index), old(Mems()), index, Mems())
    {
      hide ItemOk, NoShared, Store.Valid, Store.StockOf, Store.Holdings, BlocksUnder, AnyIn, IndexOk, Without;
      ghost var ix, mems, disks := index, Mems(), Disks();
      n := 0;
      NoneUnder(ix, disks);
      assert evicted[..0] == [];
      while n < |evicted|
        invariant n <= |evicted| && Valid() && index.Items <= ix.Items
        invariant forall k :: 0 <= k < n ==> evicted[k] in ix
        invariant Mems() == mems && Disks() == Without(disks, BlocksUnder(ix, evicted[..n]))
        invariant forall id :: id in ix ==> (id in index <==> id !in evicted[..n] || AnyIn(mems, ix[id].blocks))
      {
        var id := evicted[n];
        if id !in index {
          return;
        }
        FoundBefore(index, ix, id);
        EvictDiskItem(id);
        assert evicted[..n + 1] == evicted[..n] + [id];
        OneMoreUnder(ix, evicted[..n], id, disks);
        n := n + 1;
      }
    }

    method EvictDiskItem(id: nat)
      requires Valid() && id in index
      modifies `index, items`released, store.blocks`mem, store.blocks`disk
      ensures Valid()
      ensures index == if AnyIn(old(Mems()), old(index)[id].blocks) then old(index) else old(index) - {id}
      ensures Mems() == old(Mems()) && Disks() == Without(old(Disks()), BlocksOf(old(index)[id]))
    {
      hide ItemOk, NoShared, Store.Valid, Store.StockOf, Store.Holdings, IndexOk, AnyIn, Empty;
      IndexKnows(id);
      var it := index[id];
      BlocksKnown(it);
      ghost var mems := Mems();
      ClearDiskBlocks(it);
      NothingLeft(it);
      assert Mems() == mems;
      ReleaseIfEmpty(id, it);
    }

    lemma IndexKnows(id: nat)
      requires Valid() && id in index
      ensures index[id] in items && !index[id].released && keyToId(index[id].key) == id
    {
      hide ItemOk, NoShared, Store.Valid;
    }

    lemma NothingLeft(it: CacheItem)
      requires forall b :: b in it.blocks ==> b in store.blocks && b.disk == null
      ensures Empty(it) <==> !AnyIn(Mems(), it.blocks)
    {
      forall i | 0 <= i < |it.blocks|
        ensures it.blocks[i].mem != null ==> AnyIn(Mems(), it.blocks)
      {
        assert it.blocks[i] in it.blocks;
      }
    }

    lemma NothingIn(it: CacheItem)
      ensures Empty(it) ==> !AnyIn(Mems(), it.blocks)
    {}

    /** _alloc_disk_block: a new disk block, after evicting from disk as often as allocation fails; with
        ample space, nothing is evicted, and the first allocation is granted. */
    method AllocDiskBlock(ample: bool) returns (disk: DiskBlockItem?)
      requires Valid()
      modifies `index, items`released, store.blocks`mem, store.blocks`disk
      ensures Valid() && index.Items <= old(index).Items
      ensures ample ==> index == old(index) && store.Holdings() == old(store.Holdings())
      ensures Mems() == old(Mems()) && Shrunk(old(index), old(Mems()), index, Mems())
      ensures ample && maxRetry > 0 ==> disk != null
      ensures disk != null ==> Nobodys(disk)
      ensures forall b :: b in store.blocks && old(b.disk) == null ==> b.disk == null
      ensures disk != null ==> fresh(disk) && fresh(disk.data) && fresh(disk.checksums)
      ensures disk != null ==> disk.z == store.z && disk.medium == store.medium
      ensures disk != null ==> disk.data.Length == store.z.block && disk.checksums.Length == store.z.count
    {
      hide ItemOk, NoShared, Store.Valid, Store.StockOf, Store.Holdings, IndexOk, Separate, Shrunk;
      disk := null;
      ShrunkItself(index, Mems());
      for attempt := 0 to maxRetry
        invariant Valid() && index.Items <= old(index).Items
        invariant ample ==> attempt == 0 && index == old(index) && store.Holdings() == old(store.Holdings())
        invariant Mems() == old(Mems()) && Shrunk(old(index), old(Mems()), index, Mems())
        invariant forall b :: b in store.blocks && old(b.disk) == null ==> b.disk == null
      {
        var granted: bool := *;
        if granted || ample {
          disk := new DiskBlockItem(store.z, store.medium);
          return;
        }
        ghost var ix := index;
        EvictForDiskBlock();
        ShrunkThrough(old(index), old(Mems()), ix, Mems(), index, Mems());
      }
    }

    method EvictForDiskBlock()
      requires Valid()
      modifies `index, items`released, store.blocks`mem, store.blocks`disk
      ensures Valid() && index.Items <= old(index).Items
      ensures Mems() == old(Mems()) && Shrunk(old(index), old(Mems()), index, Mems())
      ensures forall b :: b in store.blocks && old(b.disk) == null ==> b.disk == null
    {
      hide ItemOk, NoShared, Store.Valid, IndexOk, BlocksUnder, AnyIn;
      ghost var disks := Disks();
      var evicted: seq<nat> := *;
      var n := ProcessEvictedDiskItems(evicted);
      assert forall b :: b in store.blocks && disks[b] == null ==> Disks()[b] == null;
    }

    // ----- Flush -----------------------------------------------------------------------------------------

    /** An allocation in ample space succeeds, if it is tried at all. */
    predicate Granted(ample: bool) {
      ample && maxRetry > 0
    }

    /** _flush_block_segments: to a new disk block, or over the one there is; memory's copy is dropped
        whatever comes of it.  If the system does as told, and a new disk block is granted where one is
        needed, it succeeds, and nothing is lost. */
    method FlushBlockSegments(b: BlockItem, segments: seq<Segment>, ample: bool, io: bool) returns (ok: bool)
      requires Valid() && b in store.blocks && AllFit(store.z, b.content, segments)
      requires b.mem != null && segments == Listing(b.mem.slices[..])
      requires b.disk == null ==> Continuous(segments, 0) == b.blockSize
      modifies `index, store`own, items`released, store.blocks`mem, store.blocks`disk, store.own.Keys
      ensures Valid() && index.Items <= old(index).Items
      ensures fresh(store.own.Keys - old(store.own.Keys)) && old(store.own.Keys) <= store.own.Keys
      ensures Shrunk(old(index), old(Mems()), index, Mems())
      ensures b.mem == null && (ok ==> b.disk != null) && (old(b.disk) == null && !ok ==> b.disk == null)
      ensures io && (old(b.disk) != null || Granted(ample)) ==> ok
      ensures io && ok ==> NothingLost(store.z, b.content, old(store.StockOf(b)), store.StockOf(b))
      ensures ok && (!store.medium.fallsShort || (io && old(b.disk) == null)) ==>
                WholeOnDisk(b.content, store.StockOf(b).data)
      ensures old(b.disk) != null ==> b.disk == old(b.disk)
      ensures old(b.disk) != null || ample ==> index == old(index)
      ensures old(b.disk) != null || ample ==>
              store.Holdings() - {b} == old(store.Holdings()) - {b} && Mems() - {b} == old(Mems()) - {b}
      ensures old(b.disk) != null ==> KeepsOnDisk(b.content, old(store.StockOf(b).data), store.StockOf(b).data)
    {
      hide Shrunk, ItemOk, NoShared, Store.Valid, Store.StockOf, Store.Holdings, KeepsOnDisk, IndexOk, NothingLost,
           WholeOnDisk, ListedOnDisk, Listing, Held;
      store.MemHeld(b);
      store.SlicesOf(b);
      store.BlockPositive();
      ghost var before, mems := store.StockOf(b), Mems();
      ShrunkItself(index, mems);
      if b.disk == null {
        ok := FlushToNewBlock(b, segments, ample, io);
      } else {
        store.PartsOf(b);
        ok := FlushOver(b, segments, io);
      }
      DropMem(b);
      ShrunkDrop(old(index), mems, index, mems, Mems(), b);
      if ok && !store.medium.fallsShort { store.FullOnDisk(b); }
      if ok && io {
        if old(b.disk) == null {
          WholeLosesNothing(store.z, b.content, before, store.StockOf(b));
        } else {
          FlushedOver(store.z, b.content, before, store.StockOf(b));
        }
      }
    }

    method DropMem(b: BlockItem)
      requires Valid() && b in store.blocks
      modifies b`mem
      ensures Valid() && b.mem == null && store.StockOf(b).data == old(store.StockOf(b).data)
      ensures store.Holdings() - {b} == old(store.Holdings()) - {b} && Mems() - {b} == old(Mems()) - {b}
    {
      hide ItemOk, NoShared, Store.Valid, Store.StockOf, Store.Holdings;
      store.DropMem(b);
    }

    method FlushOver(b: BlockItem, segments: seq<Segment>, io: bool) returns (ok: bool)
      requires Valid() && b in store.blocks && AllFit(store.z, b.content, segments) && b.disk != null
      modifies b.disk.data, b.disk.checksums
      ensures Valid()
      ensures store.Holdings() - {b} == old(store.Holdings()) - {b}
      ensures KeepsOnDisk(b.content, old(store.StockOf(b).data), store.StockOf(b).data)
      ensures io ==> ok && ListedOnDisk(b.content, store.StockOf(b).data, segments)
    {
      hide ItemOk, NoShared, Store.StockOf, Store.Holdings, OnDisk, KeepsOnDisk, ListedOnDisk;
      ok := store.WriteDisk(b, segments, io);
    }

    /** The disk block is no part of the cache yet. */
    ghost predicate Nobodys(disk: DiskBlockItem)
      reads this, store
    {
      disk !in Mine() && disk.data !in Mine() && disk.checksums !in Mine()
    }

    method FlushToNewBlock(b: BlockItem, segments: seq<Segment>, ample: bool, io: bool) returns (ok: bool)
      requires Valid() && b in store.blocks && AllFit(store.z, b.content, segments)
      requires Continuous(segments, 0) == b.blockSize
      modifies `index, store`own, items`released, store.blocks`mem, store.blocks`disk
      ensures Valid() && index.Items <= old(index).Items
      ensures fresh(store.own.Keys - old(store.own.Keys)) && old(store.own.Keys) <= store.own.Keys
      ensures ok ==> b.disk != null
      ensures !ok && old(b.disk) == null ==> b.disk == null
      ensures io && Granted(ample) ==> ok
      ensures ok && io ==> WholeOnDisk(b.content, store.StockOf(b).data)
      ensures ample ==> index == old(index) && store.Holdings() - {b} == old(store.Holdings()) - {b}
      ensures Mems() == old(Mems()) && Shrunk(old(index), old(Mems()), index, Mems())
    {
      hide Shrunk, ItemOk, NoShared, IndexOk, Store.Valid, Store.StockOf, Store.Holdings, DiskBlockItem.Valid,
           WholeOnDisk, Nobodys, Separate, Continuous, Fits;
      var disk := AllocDiskBlock(ample);
      if disk == null {
        return false;
      }
      ok := FillAndAttach(b, disk, segments, io);
    }

    method FillAndAttach(b: BlockItem, disk: DiskBlockItem, segments: seq<Segment>, io: bool) returns (ok: bool)
      requires Valid() && b in store.blocks && AllFit(store.z, b.content, segments)
      requires Continuous(segments, 0) == b.blockSize
      requires Nobodys(disk)
      requires disk.z == store.z && disk.medium == store.medium
      requires disk.data.Length == store.z.block && disk.checksums.Length == store.z.count
      modifies disk.data, disk.checksums, b`disk, store`own
      ensures Valid() && (io ==> ok) && b.disk == (if ok then disk else old(b.disk))
      ensures store.own.Keys == old(store.own.Keys) + if ok then {disk, disk.data, disk.checksums} else {}
      ensures ok && io ==> WholeOnDisk(b.content, store.StockOf(b).data)
      ensures store.Holdings() - {b} == old(store.Holdings()) - {b}
    {
      hide Valid, Store.Valid, Store.StockOf, Store.Holdings, DiskBlockItem.Valid, WholeOnDisk, Fits;
      ok := FillNew(b, disk, segments, io);
      if ok { AttachNew(b, disk, io); }
    }

    /** What the segments have goes to a disk block that is nobody's yet. */
    method FillNew(b: BlockItem, disk: DiskBlockItem, segments: seq<Segment>, io: bool) returns (ok: bool)
      requires Valid() && b in store.blocks && AllFit(store.z, b.content, segments)
      requires Continuous(segments, 0) == b.blockSize
      requires disk.data !in Mine() && disk.checksums !in Mine()
      requires disk.z == store.z && disk.medium == store.medium
      requires disk.data.Length == store.z.block && disk.checksums.Length == store.z.count
      modifies disk.data, disk.checksums
      ensures Valid() && (io ==> ok) && (ok ==> disk.Valid(b.content)) && |b.content| <= disk.data.Length
      ensures io ==> Agrees(b.content, disk.data[..], 0, |b.content|)
      ensures store.Holdings() == old(store.Holdings())
    {
      hide Valid, Store.Valid, Store.StockOf, Store.Holdings, DiskBlockItem.HasRoom, DiskBlockItem.Valid, Fits;
      StoreOk(b, disk);
      ghost var full;
      ok, full := WriteSegments(disk, segments, io, b.content);
      if ok { Whole(b, disk, full); }
    }

    lemma StoreOk(b: BlockItem, disk: DiskBlockItem)
      requires Valid() && b in store.blocks
      requires disk.data.Length == store.z.block && disk.checksums.Length == store.z.count && disk.z == store.z
      ensures store.Valid() && disk.HasRoom(b.content) && |b.content| == b.blockSize && store.medium.Trusted()
      ensures |b.content| <= disk.data.Length
    {
      hide ItemOk, NoShared, IndexOk, Store.Valid;
      store.Room(b, disk);
      store.Sound();
    }

    method AttachNew(b: BlockItem, disk: DiskBlockItem, whole: bool)
      requires Valid() && b in store.blocks
      requires disk !in store.own && disk.data !in store.own && disk.checksums !in store.own
      requires disk.z == store.z && disk.medium == store.medium && disk.Valid(b.content)
      requires whole ==> |b.content| <= disk.data.Length && Agrees(b.content, disk.data[..], 0, |b.content|)
      modifies b`disk, store`own
      ensures Valid() && b.disk == disk
      ensures store.own.Keys == old(store.own.Keys) + {disk, disk.data, disk.checksums}
      ensures store.Holdings() - {b} == old(store.Holdings()) - {b}
      ensures whole ==> WholeOnDisk(b.content, store.StockOf(b).data)
    {
      hide ItemOk, NoShared, IndexOk, Store.Valid, Store.StockOf, Store.Holdings, WholeOnDisk, DiskBlockItem.Valid;
      AttachDisk(b, disk);
      if whole { store.FullOnDisk(b); }
    }

    /** A disk block that was written without an error is good, even if some of it fell short. */
    lemma Whole(b: BlockItem, disk: DiskBlockItem, full: bool)
      requires store.medium.Trusted() && disk.medium == store.medium && disk.HasRoom(b.content)
      requires AllSummed(disk.z, disk.medium.crc, b.content, disk.checksums[..])
      requires full ==> Agrees(b.content, disk.data[..], 0, |b.content|)
      requires !disk.medium.fallsShort ==> full
      ensures disk.Valid(b.content)
    {
      hide Tells, Agrees, AllSummed;
    }

    method AttachDisk(b: BlockItem, disk: DiskBlockItem)
      requires Valid() && b in store.blocks
      requires disk !in store.own && disk.data !in store.own && disk.checksums !in store.own
      requires disk.z == store.z && disk.medium == store.medium && disk.Valid(b.content)
      modifies b`disk, store`own
      ensures Valid() && b.disk == disk
      ensures store.own.Keys == old(store.own.Keys) + {disk, disk.data, disk.checksums}
      ensures store.Holdings() - {b} == old(store.Holdings()) - {b}
    {
      hide ItemOk, NoShared, Store.Valid, Store.StockOf, Store.Holdings, DiskBlockItem.Valid;
      store.AttachDisk(b, disk);
    }

    /** What is to become of a block: the policy decides, but for pinned items and without a disk layer. */
    function Admitted(it: CacheItem, word: Admission): (a: Admission)
      reads it`pinned
    {
      if it.pinned then (if hasDiskLayer then FLUSH else SKIP)
      else if !hasDiskLayer then DELETE
      else word
    }

    /** What memory lists reaches from the start of the block to its end. */
    ghost predicate WholeInMemory(b: BlockItem)
      requires b.mem != null
      reads b`mem, b.mem.slices
    {
      Continuous(Listing(b.mem.slices[..]), 0) == b.blockSize
    }

    /** The block is dropped: the policy says so, or there is too little of it to start a disk block with. */
    ghost predicate Lost(a: Admission, onDisk: bool, whole: bool) {
      a == DELETE || (a == FLUSH && !onDisk && !whole)
    }

    /** The block needs a new disk block, and may have it. */
    ghost predicate Moves(a: Admission, onDisk: bool, whole: bool) {
      a == FLUSH && !onDisk && whole
    }

    /** The block is cleared, and its item leaves the index exactly if that was the last of it. */
    twostate predicate Cleared(id: nat, it: CacheItem, b: BlockItem)
      reads this, store, store.blocks, store.own.Keys, it, it.blocks, b
    {
      && b.mem == null && b.disk == null && it.released == Empty(it)
      && index == (if Empty(it) then old(index) - {id} else old(index))
      && store.Holdings() - {b} == old(store.Holdings()) - {b} && Mems() - {b} == old(Mems()) - {b}
    }

    /** Memory gives the block back, and the disk block it has stays, with all it had there; if the system
        does as told, with all that memory had as well. */
    twostate predicate KeptOnDisk(b: BlockItem, io: bool)
      reads this, store, store.blocks, store.own.Keys, b, if b.disk == null then {} else {b.disk.data}
      reads if b.mem == null then {} else {b.mem.slices}
    {
      && b.mem == null && b.disk != null && b.disk == old(b.disk) && index == old(index)
      && KeepsOnDisk(b.content, old(store.StockOf(b).data), store.StockOf(b).data)
      && (io ==> NothingLost(store.z, b.content, old(store.StockOf(b)), store.StockOf(b)))
      && store.Holdings() - {b} == old(store.Holdings()) - {b} && Mems() - {b} == old(Mems()) - {b}
    }

    /** Memory gives the block back, and a new disk block has all of it. */
    twostate predicate MovedToDisk(b: BlockItem)
      reads this, store, store.blocks, store.own.Keys, b, if b.disk == null then {} else {b.disk.data}
      reads if b.mem == null then {} else {b.mem.slices}
    {
      && b.mem == null && b.disk != null && WholeOnDisk(b.content, store.StockOf(b).data) && index == old(index)
      && store.Holdings() - {b} == old(store.Holdings()) - {b} && Mems() - {b} == old(Mems()) - {b}
    }

    /** _flush_block: what becomes of a block that memory wants back.  A block on disk stays there, come
        what may, with all it had there; one that is not is put there, if it is whole and the write
        succeeds, or lost.  Only where a new disk block has to be found are other blocks concerned. */
    method FlushBlock(id: nat, it: CacheItem, i: nat, word: Admission, ample: bool, io: bool) returns (ok: bool)
      requires Valid() && it in items && i < |it.blocks| && id == keyToId(it.key)
      modifies `index, store`own, items`released, store.blocks`mem, store.blocks`disk, store.own.Keys
      ensures Valid() && index.Items <= old(index).Items
      ensures fresh(store.own.Keys - old(store.own.Keys)) && old(store.own.Keys) <= store.own.Keys
      ensures old(id in index && index[id] == it) ==> Shrunk(old(index), old(Mems()), index, Mems())
      ensures old(it.released) || old(it.blocks[i].mem) == null || old(Admitted(it, word)) == SKIP ==>
                ok && unchanged(this, store, old(items), old(store.blocks), old(store.own.Keys))
      ensures var b, a := it.blocks[i], old(Admitted(it, word));
              !old(it.released) && old(b.mem) != null && a != SKIP ==>
                && b.mem == null
                && (Lost(a, old(b.disk) != null, old(WholeInMemory(b))) ==> ok && Cleared(id, it, b))
                && (a == FLUSH && old(b.disk) != null ==> KeptOnDisk(b, io) && (io ==> ok))
                && (Moves(a, old(b.disk) != null, old(WholeInMemory(b))) ==>
                      && (ok <==> b.disk != null) && (io && Granted(ample) ==> ok && MovedToDisk(b))
                      && (ok && (io || !store.medium.fallsShort) ==> WholeOnDisk(b.content, store.StockOf(b).data)))
    {
      hide Shrunk, ItemOk, NoShared, IndexOk, Store.Valid, Store.StockOf, Store.Holdings, KeepsOnDisk, Fits,
           WholeInMemory, Continuous, NothingLost, WholeOnDisk, Listing;
      BlockOfItem(it, i);
      BlocksKnown(it);
      ShrunkItself(index, Mems());
      var b := it.blocks[i];
      if it.released || b.mem == null {
        return true;
      }
      var admission := Admitted(it, word);
      if admission == FLUSH {
        var flushed;
        flushed, ok := FlushListed(b, ample, io);
        if flushed {
          return;
        }
      } else if admission == SKIP {
        return true;
      }
      ghost var mems := Mems();
      DropBlock(id, it, i);
      NothingIn(it);
      if old(id in index && index[id] == it) { ShrunkClear(old(index), mems, index, Mems(), id, b); }
      return true;
    }

    /** Flushes what memory lists of the block, if there is a disk block to write it over or enough of it
        for a new one. */
    method FlushListed(b: BlockItem, ample: bool, io: bool) returns (flushed: bool, ok: bool)
      requires Valid() && b in store.blocks && b.mem != null
      modifies `index, store`own, items`released, store.blocks`mem, store.blocks`disk, store.own.Keys
      ensures Valid() && index.Items <= old(index).Items
      ensures fresh(store.own.Keys - old(store.own.Keys)) && old(store.own.Keys) <= store.own.Keys
      ensures Shrunk(old(index), old(Mems()), index, Mems())
      ensures flushed <==> old(b.disk) != null || old(WholeInMemory(b))
      ensures !flushed ==> unchanged(this, store, old(items), old(store.blocks), old(store.own.Keys))
      ensures flushed && old(b.disk) != null ==> KeptOnDisk(b, io) && (io ==> ok)
      ensures flushed && old(b.disk) == null ==>
                && b.mem == null && (ok <==> b.disk != null) && (io && Granted(ample) ==> ok && MovedToDisk(b))
                && (ok && (io || !store.medium.fallsShort) ==> WholeOnDisk(b.content, store.StockOf(b).data))
    {
      hide Shrunk, ItemOk, NoShared, IndexOk, Store.Valid, Store.StockOf, Store.Holdings, KeepsOnDisk, Fits,
           WholeInMemory, Continuous, NothingLost, WholeOnDisk, Listing;
      var segments;
      ShrunkItself(index, Mems());
      segments, flushed := ListSegments(b);
      ok := false;
      if flushed {
        ok := FlushBlockSegments(b, segments, ample, io);
      }
    }

    /** The block is cleared, and the item released with it if it was the last. */
    method DropBlock(id: nat, it: CacheItem, i: nat)
      requires Valid() && it in items && i < |it.blocks| && id == keyToId(it.key) && !it.released
      modifies `index, it`released, it.blocks`mem, it.blocks`disk
      ensures Valid() && Cleared(id, it, it.blocks[i]) && index.Items <= old(index).Items
    {
      hide ItemOk, NoShared, IndexOk, Store.Valid, Store.StockOf, Store.Holdings;
      BlockOfItem(it, i);
      ClearBlock(it.blocks[i]);
      ReleaseIfEmpty(id, it);
      WithoutSmaller(old(index), id);
    }

    /** What memory has of the block, and whether it may be flushed: a new disk block needs all of it. */
    method ListSegments(b: BlockItem) returns (segments: seq<Segment>, flushable: bool)
      requires Valid() && b in store.blocks && b.mem != null
      ensures AllFit(store.z, b.content, segments) && segments == Listing(b.mem.slices[..])
      ensures flushable <==> b.disk != null || WholeInMemory(b)
      ensures flushable && b.disk == null ==> Continuous(segments, 0) == b.blockSize
    {
      hide ItemOk, NoShared, IndexOk, Store.Valid;
      store.MemHeld(b);
      segments := b.mem.ListSegments(b.content);
      var continuous := ContinuousSegmentsSize(segments);
      flushable := b.disk != null || continuous == b.blockSize;
    }

    /** clear_block */
    method ClearBlock(b: BlockItem)
      requires Valid() && b in store.blocks
      modifies b`mem, b`disk
      ensures Valid() && b.mem == null && b.disk == null
      ensures store.Holdings() - {b} == old(store.Holdings()) - {b} && Mems() - {b} == old(Mems()) - {b}
    {
      hide ItemOk, NoShared, Store.Valid, Store.StockOf, Store.Holdings;
      store.DropMem(b);
      store.DropDisk(b);
    }

    /** A memory block that was never written to, of a block that is on disk. */
    ghost predicate Spare(b: BlockItem)
      reads b, if b.mem == null then {} else {b.mem}
    {
      b.mem != null && !b.mem.dirty && b.disk != null
    }

    /** The block an evicted key names has memory to give back. */
    ghost predicate Names(ix: map<nat, CacheItem>, id: nat, i: nat)
      reads if id in ix && i < |ix[id].blocks| then {ix[id].blocks[i]} else {}
    {
      id in ix && i < |ix[id].blocks| && ix[id].blocks[i].mem != null
    }

    /** One evicted block key: the block's memory goes, by way of a flush unless it is spare.  A stale key
        changes nothing at all.  A pinned block stays where there is no disk layer, and so does one that
        is to be skipped where there is one; an unpinned block is cleared where there is none, or if it
        is to be deleted; else it goes to disk, over what it has there or, if it is whole in memory and a
        disk block is granted, to a new one, and is cleared if it is not whole. */
    method EvictMemBlock(id: nat, i: nat, word: Admission, ample: bool, io: bool)
      requires Valid()
      modifies `index, store`own, items`released, store.blocks`mem, store.blocks`disk, store.own.Keys
      ensures Valid() && index.Items <= old(index).Items
      ensures fresh(store.own.Keys - old(store.own.Keys)) && old(store.own.Keys) <= store.own.Keys
      ensures Shrunk(old(index), old(Mems()), index, Mems())
      ensures !old(Names(index, id, i)) ==> unchanged(this, store, old(items), old(store.blocks), old(store.own.Keys))
      ensures old(Names(index, id, i) && Spare(index[id].blocks[i])) ==>
                var b := old(index)[id].blocks[i];
                && index == old(index) && b.mem == null &&
                      store.StockOf(b).data == old(store.StockOf(index[id].blocks[i]).data)
                && store.Holdings() - {b} == old(store.Holdings()) - {b} && Mems() - {b} == old(Mems()) - {b}
      ensures old(Names(index, id, i) && !Spare(index[id].blocks[i])) ==>
                var it, b := old(index)[id], old(index)[id].blocks[i];
                && ((if it.pinned then !hasDiskLayer else hasDiskLayer && word == SKIP) ==>
                      unchanged(this, store, old(items), old(store.blocks), old(store.own.Keys)))
                && (!it.pinned && (!hasDiskLayer || word == DELETE) ==> Cleared(id, it, b))
                && (hasDiskLayer && (it.pinned || word == FLUSH) ==>
                      && b.mem == null
                      && (old(b.disk) != null ==> KeptOnDisk(b, io))
                      && (old(b.disk) == null && !old(WholeInMemory(b)) ==> Cleared(id, it, b))
                      && (old(b.disk) == null && old(WholeInMemory(b)) && Granted(ample) && io ==> MovedToDisk(b)))
    {
      hide Shrunk, ItemOk, NoShared, Store.Valid, Store.StockOf, Store.Holdings, KeepsOnDisk, NothingLost, WholeOnDisk,
           WholeInMemory;
      ShrunkItself(index, Mems());
      if id !in index {
        return;
      }
      var it := index[id];
      if i >= |it.blocks| || it.blocks[i].mem == null {
        return;
      }
      BlockOfItem(it, i);
      if it.blocks[i].mem.dirty || it.blocks[i].disk == null {
        var ok := FlushBlock(id, it, i, word, ample, io);
      } else {
        ghost var mems := Mems();
        DropMem(it.blocks[i]);
        ShrunkDrop(index, mems, index, mems, Mems(), it.blocks[i]);
      }
    }

    /** What the block's item and the policy allow to leave memory. */
    ghost predicate MayGo(it: CacheItem, word: Admission)
      reads it`pinned
    {
      !(if it.pinned then !hasDiskLayer else hasDiskLayer && word == SKIP)
    }

    /** One of the evicted keys, with whatever comes of the disk side. */
    method EvictAnyMemBlock(key: (nat, nat), word: Admission)
      requires Valid()
      modifies `index, store`own, items`released, store.blocks`mem, store.blocks`disk, store.own.Keys
      ensures Valid() && Shrunk(old(index), old(Mems()), index, Mems())
      ensures fresh(store.own.Keys - old(store.own.Keys)) && old(store.own.Keys) <= store.own.Keys
      ensures old(key.0 in index && MayGo(index[key.0], word)) ==> OutOf(old(index), Mems(), key)
    {
      hide Shrunk, Valid, Store.Holdings, Store.StockOf;
      var ample: bool, io: bool := *, *;
      EvictMemBlock(key.0, key.1, word, ample, io);
    }

    /** The next of them. */
    method EvictNextMemBlock(evicted: seq<(nat, nat)>, k: nat, word: Admission, ghost ix: map<nat, CacheItem>,
                             ghost mems: map<BlockItem, MemBlockItem?>, ghost due: set<nat>)
      requires Valid() && k < |evicted| && Shrunk(ix, mems, index, Mems()) && AllOut(ix, Mems(), evicted, due, k)
      requires k in due && evicted[k].0 in index ==> MayGo(index[evicted[k].0], word)
      modifies `index, store`own, items`released, store.blocks`mem, store.blocks`disk, store.own.Keys
      ensures Valid() && Shrunk(ix, mems, index, Mems()) && AllOut(ix, Mems(), evicted, due, k + 1)
      ensures fresh(store.own.Keys - old(store.own.Keys)) && old(store.own.Keys) <= store.own.Keys
    {
      hide Valid, Shrunk, OutOf, AllOut;
      ghost var ix', mems' := index, Mems();
      EvictAnyMemBlock(evicted[k], word);
      ShrunkThrough(ix, mems, ix', mems', index, Mems());
      OutNow(ix, mems, ix', mems', index, Mems(), evicted[k]);
      OutAgain(ix, ix', mems', index, Mems(), evicted, due, k);
    }

    /** _process_evicted_mem_blocks: keys the index does not know are passed over; any other block is out
        of memory afterwards, if its item and the policy allow it, and only such blocks are, with what
        evictions from disk drop. */
    method ProcessEvictedMemBlocks(evicted: seq<(nat, nat)>, words: seq<Admission>)
      requires Valid() && |words| == |evicted|
      modifies `index, store`own, items`released, store.blocks`mem, store.blocks`disk, store.own.Keys
      ensures Valid() && Shrunk(old(index), old(Mems()), index, Mems())
      ensures fresh(store.own.Keys - old(store.own.Keys)) && old(store.own.Keys) <= store.own.Keys
      ensures forall k: nat ::
                k < |evicted| && old(evicted[k].0 in index && MayGo(index[evicted[k].0], words[k])) ==>
                  OutOf(old(index), Mems(), evicted[k])
    {
      hide ItemOk, NoShared, IndexOk, Store.Valid, Shrunk, OutOf, Store.Holdings;
      ghost var ix, mems := index, Mems();
      ghost var due := set k: nat | k < |evicted| && evicted[k].0 in ix && MayGo(ix[evicted[k].0], words[k]);
      ShrunkItself(ix, mems);
      for k := 0 to |evicted|
        invariant Valid() && Shrunk(ix, mems, index, Mems())
        invariant fresh(store.own.Keys - old(store.own.Keys)) && old(store.own.Keys) <= store.own.Keys
        invariant AllOut(ix, Mems(), evicted, due, k)
      {
        if evicted[k].0 in index {
          ShrunkFrom(ix, mems, index, Mems(), evicted[k].0);
          IndexKnows(evicted[k].0);
        }
        EvictNextMemBlock(evicted, k, words[k], ix, mems, due);
      }
    }

    method EvictForMemBlock()
      requires Valid()
      modifies `index, store`own, items`released, store.blocks`mem, store.blocks`disk, store.own.Keys
      ensures Valid() && index.Items <= old(index).Items
      ensures fresh(store.own.Keys - old(store.own.Keys)) && old(store.own.Keys) <= store.own.Keys
    {
      hide ItemOk, NoShared, IndexOk, Store.Valid;
      var evicted: seq<(nat, nat)> := *;
      var word: nat -> Admission := *;
      ProcessEvictedMemBlocks(evicted, seq(|evicted|, k requires 0 <= k => word(k)));
    }

    /** _alloc_block_segment: evicts from memory as often as the allocation is refused; with ample space,
        nothing is evicted, and the first allocation is granted. */
    method AllocBlockSegment(offset: nat, size: nat, buf: seq<byte>, ample: bool) returns (segment: Option<Segment>)
      requires Valid()
      modifies `index, store`own, items`released, store.blocks`mem, store.blocks`disk, store.own.Keys
      ensures Valid() && index.Items <= old(index).Items
      ensures fresh(store.own.Keys - old(store.own.Keys)) && old(store.own.Keys) <= store.own.Keys
      ensures ample ==> index == old(index) && store.Holdings() == old(store.Holdings())
      ensures segment.Some? ==> segment.value == Segment(segment.value.addr, offset, size, buf)
      ensures ample && maxRetry > 0 ==> segment.Some?
    {
      hide ItemOk, NoShared, IndexOk, Store.Valid, Store.StockOf, Store.Holdings;
      segment := None;
      for attempt := 0 to maxRetry
        invariant Valid() && index.Items <= old(index).Items
        invariant ample ==> attempt == 0 && index == old(index) && store.Holdings() == old(store.Holdings())
        invariant fresh(store.own.Keys - old(store.own.Keys)) && old(store.own.Keys) <= store.own.Keys
      {
        var granted: bool := *;
        if granted || ample {
          var addr: nat := *;
          return Some(Segment(addr, offset, size, buf));
        }
        EvictForMemBlock();
      }
    }

    // ----- Promotion ---------------------------------------------------------------------------------------

    /** _promote_block_segments: what a read fetched from disk is put in memory as well, as far as memory
        is granted, on top of what memory then has of the block.  With ample space, nothing that could
        be had is lost by it. */
    method PromoteBlockSegments(b: BlockItem, segments: seq<Segment>, ample: bool)
      returns (promoted: seq<Segment>, ghost before: Slices)
      requires Valid() && b in store.blocks && AllFit(store.z, b.content, segments)
      modifies `index, store`own, items`released, store.blocks`mem, store.blocks`disk, store.own.Keys
      ensures Valid() && index.Items <= old(index).Items
      ensures fresh(store.own.Keys - old(store.own.Keys)) && old(store.own.Keys) <= store.own.Keys
      ensures promoted != [] ==> b.mem != null && b.mem.slices[..] == Written(store.z, before, promoted)
      ensures Granted(ample) ==> Alike(segments, promoted)
      ensures AllFit(store.z, b.content, promoted)
      ensures ample ==> index == old(index) && before == old(store.StockOf(b).ss)
      ensures ample ==> store.Holdings() - {b} == old(store.Holdings()) - {b}
      ensures ample ==> NoLess(old(store.StockOf(b)), store.StockOf(b))
    {
      hide ItemOk, NoShared, IndexOk, Store.Valid, Store.StockOf, Store.Holdings, HeldOn, NoLess, Fits, Written, Alike;
      store.HoldingOf(b);
      promoted := AllocBlockSegments(segments, b.content, ample);
      store.HoldingOf(b);
      before := store.StockOf(b).ss;
      if promoted == [] {
        NoLessItself(store.StockOf(b));
        return;
      }
      PutInMemory(b, promoted, false);
      store.SlicesOf(b);
    }

    /** Segments for as many of the given ones as allocations are granted. */
    method AllocBlockSegments(segments: seq<Segment>, ghost content: seq<byte>, ample: bool)
      returns (granted: seq<Segment>)
      requires Valid() && AllFit(store.z, content, segments)
      modifies `index, store`own, items`released, store.blocks`mem, store.blocks`disk, store.own.Keys
      ensures Valid() && index.Items <= old(index).Items
      ensures fresh(store.own.Keys - old(store.own.Keys)) && old(store.own.Keys) <= store.own.Keys
      ensures ample ==> index == old(index) && store.Holdings() == old(store.Holdings())
      ensures AllFit(store.z, content, granted)
      ensures Granted(ample) ==> Alike(segments, granted)
    {
      hide ItemOk, NoShared, IndexOk, Store.Valid, Store.StockOf, Store.Holdings, Fits;
      granted := [];
      for k := 0 to |segments|
        invariant Valid() && index.Items <= old(index).Items
        invariant fresh(store.own.Keys - old(store.own.Keys)) && old(store.own.Keys) <= store.own.Keys
        invariant ample ==> index == old(index) && store.Holdings() == old(store.Holdings())
        invariant AllFit(store.z, content, granted)
        invariant Granted(ample) ==> Alike(segments[..k], granted)
      {
        var segment := AllocBlockSegment(segments[k].offset, segments[k].size, segments[k].buf, ample);
        if segment.Some? {
          SameFit(store.z, content, segments[k], segment.value);
          granted := granted + [segment.value];
        }
        assert segments[..k + 1] == segments[..k] + [segments[k]];
      }
      assert segments[..|segments|] == segments;
    }

    /** Segments go to the memory block a block has, or to a new one. */
    method PutInMemory(b: BlockItem, segments: seq<Segment>, dirty: bool)
      requires Valid() && b in store.blocks && AllFit(store.z, b.content, segments)
      modifies b`mem, store`own, store.own.Keys
      ensures Valid() && b.mem != null && b.mem.slices[..] == Written(store.z, old(store.StockOf(b).ss), segments)
      ensures fresh(store.own.Keys - old(store.own.Keys)) && old(store.own.Keys) <= store.own.Keys
      ensures store.Holdings() - {b} == old(store.Holdings()) - {b}
      ensures NoLess(old(store.StockOf(b)), store.StockOf(b))
    {
      hide ItemOk, NoShared, Store.Valid, Store.Holdings, HeldOn, NoLess, Fits, Written;
      ghost var before := store.StockOf(b);
      store.BlockPositive();
      if b.mem == null {
        PutInNewMem(b, segments, dirty);
      } else {
        store.PartsOf(b);
        WriteMem(b, segments);
      }
      WrittenNoLess(store.z, before, store.StockOf(b), segments);
    }

    method WriteMem(b: BlockItem, segments: seq<Segment>)
      requires Valid() && b in store.blocks && b.mem != null && AllFit(store.z, b.content, segments)
      modifies b.mem.slices
      ensures Valid() && b.mem.slices[..] == Written(store.z, old(b.mem.slices[..]), segments)
      ensures store.Holdings() - {b} == old(store.Holdings()) - {b}
    {
      hide ItemOk, NoShared, Store.StockOf, Store.Holdings;
      store.WriteMem(b, segments);
    }

    method PutInNewMem(b: BlockItem, segments: seq<Segment>, dirty: bool)
      requires Valid() && b in store.blocks && AllFit(store.z, b.content, segments)
      modifies b`mem, store`own
      ensures Valid() && b.mem != null && b.mem.dirty == dirty
      ensures b.mem.slices[..] == Written(store.z, seq(store.z.count, _ => None), segments)
      ensures fresh(store.own.Keys - old(store.own.Keys)) && old(store.own.Keys) <= store.own.Keys
      ensures store.Holdings() - {b} == old(store.Holdings()) - {b}
    {
      hide ItemOk, NoShared, Store.Valid, Store.StockOf, Store.Holdings, Fits, Written;
      store.PutInNewMem(b, segments, dirty);
    }

    // ----- Writing ---------------------------------------------------------------------------------------

    /** The blocks of an object being written are not yet part of the cache. */
    ghost predicate Apart(pending: Store)
      reads this, store, pending
    {
      && pending.z == store.z && pending.medium == store.medium
      && pending !in Mine()
      && (forall b: BlockItem :: b in pending.blocks ==> b !in Mine())
      && (forall o :: o in pending.own.Keys ==> o !in Mine())
    }

    ghost predicate NewTo(pending: Store, o: object)
      reads this, store, pending
    {
      o !in Mine() && o != pending && o !in pending.own && (o is BlockItem ==> o as BlockItem !in pending.blocks)
    }

    /** A new item for the value, its blocks entered in `pending`. */
    method NewCacheItem(pending: Store, key: Key, buf: Buffer) returns (it: CacheItem)
      requires Valid() && Apart(pending) && pending.Valid() && buf != []
      modifies pending`blocks
      ensures pending.own == old(pending.own)
      ensures Valid() && Apart(pending) && pending.Valid() && fresh(pending.blocks - old(pending.blocks))
      ensures fresh(it) && it.key == key && it.value == buf && !it.released
      ensures ItemOk(store.z, pending.blocks, it)
      ensures forall i :: 0 <= i < |it.blocks| ==> it.blocks[i].mem == null && it.blocks[i].disk == null
    {
      hide Store.Valid, Valid, ItemOk;
      var blocks := pending.MakeBlocks(buf);
      it := new CacheItem(key, |buf|, blocks, buf);
      pending.BlockPositive();
      ItemMade(store.z, pending.blocks, it);
    }

    lemma ApartSizes(pending: Store)
      requires Apart(pending)
      ensures pending.z == store.z && pending.medium == store.medium && pending != store
      ensures pending.blocks !! store.blocks && pending.own.Keys !! store.own.Keys && pending !in store.own
      ensures forall b: BlockItem :: b in pending.blocks ==> b !in store.own
    {}

    /** Whatever the allocation evicts, it is nothing of the object being written. */
    method AllocBeside(pending: Store, size: nat, padded: seq<byte>, ample: bool) returns (segment: Option<Segment>)
      requires Valid() && Apart(pending) && pending.Valid()
      modifies `index, store`own, items`released, store.blocks`mem, store.blocks`disk, store.own.Keys
      ensures Valid() && index.Items <= old(index).Items
      ensures fresh(store.own.Keys - old(store.own.Keys)) && old(store.own.Keys) <= store.own.Keys
      ensures Apart(pending) && pending.Valid() && pending.own == old(pending.own) &&
            pending.blocks == old(pending.blocks)
      ensures pending.Holdings() == old(pending.Holdings())
      ensures ample ==> index == old(index) && store.Holdings() == old(store.Holdings())
      ensures segment.Some? ==> segment.value == Segment(segment.value.addr, 0, size, padded)
      ensures Granted(ample) ==> segment.Some?
    {
      hide ItemOk, NoShared, IndexOk, Store.Valid, Store.StockOf, Store.Holdings, Fits;
      pending.AllOwned();
      segment := AllocBlockSegment(0, size, padded, ample);
    }

    method AllocDiskBeside(pending: Store, ample: bool) returns (disk: DiskBlockItem?)
      requires Valid() && Apart(pending) && pending.Valid()
      modifies `index, items`released, store.blocks`mem, store.blocks`disk
      ensures Valid() && index.Items <= old(index).Items && Apart(pending) && pending.Valid() &&
            pending.blocks == old(pending.blocks)
      ensures pending.Holdings() == old(pending.Holdings())
      ensures ample ==> index == old(index) && store.Holdings() == old(store.Holdings())
      ensures disk != null ==> fresh(disk) && fresh(disk.data) && fresh(disk.checksums)
      ensures disk != null ==> disk.z == store.z && disk.medium == store.medium
      ensures disk != null ==> disk.data.Length == store.z.block && disk.checksums.Length == store.z.count
      ensures Granted(ample) ==> disk != null
      ensures disk != null ==> NewTo(pending, disk) && NewTo(pending, disk.data) && NewTo(pending, disk.checksums)
    {
      hide ItemOk, NoShared, IndexOk, Store.Valid, Store.StockOf, Store.Holdings;
      pending.AllOwned();
      disk := AllocDiskBlock(ample);
    }

    /** A segment for the whole block, with the buffer as memory will hold it. */
    method AllocPadded(pending: Store, b: BlockItem, buf: seq<byte>, ample: bool) returns (segment: Option<Segment>)
      requires Valid() && Apart(pending) && pending.Valid() && b in pending.blocks && buf == b.content
      modifies `index, store`own, items`released, store.blocks`mem, store.blocks`disk, store.own.Keys
      ensures Valid() && index.Items <= old(index).Items
      ensures fresh(store.own.Keys - old(store.own.Keys)) && old(store.own.Keys) <= store.own.Keys
      ensures Apart(pending) && pending.Valid() && pending.own == old(pending.own) &&
            pending.blocks == old(pending.blocks)
      ensures pending.Holdings() == old(pending.Holdings()) && b.disk == old(b.disk) && pending.z.Valid()
      ensures ample ==> index == old(index) && store.Holdings() == old(store.Holdings())
      ensures segment.Some? ==>
              Fits(pending.z, b.content, segment.value) && segment.value.offset == 0 && segment.value.size == |buf|
      ensures Granted(ample) ==> segment.Some?
    {
      hide ItemOk, NoShared, IndexOk, Store.Valid, Store.StockOf, Store.Holdings, Fits, Apart;
      ApartSizes(pending);
      pending.Sound();
      var padded := AlignBuffer(pending, b, buf);
      segment := AllocBeside(pending, |buf|, padded, ample);
    }

    method WriteBlockToMemory(pending: Store, b: BlockItem, buf: seq<byte>, ample: bool) returns (ok: bool)
      requires Valid() && Apart(pending) && pending.Valid() && b in pending.blocks && buf == b.content
      modifies `index, store`own, items`released, store.blocks`mem, store.blocks`disk, store.own.Keys
      modifies pending`own, b`mem
      ensures Valid() && index.Items <= old(index).Items
      ensures fresh(store.own.Keys - old(store.own.Keys)) && old(store.own.Keys) <= store.own.Keys
      ensures Apart(pending) && pending.Valid() && fresh(pending.own.Keys - old(pending.own.Keys))
      ensures ok ==> pending.Full(b) && InMemoryAlone(b, old(b.disk))
      ensures Granted(ample) ==> ok
      ensures pending.blocks == old(pending.blocks) && pending.Holdings() - {b} == old(pending.Holdings()) - {b}
      ensures ample ==> index == old(index) && store.Holdings() == old(store.Holdings())
    {
      hide Valid, Store.Valid, Store.StockOf, Store.Holdings, Store.Full, Fits, Apart, WholeInMemory;
      ApartSizes(pending);
      var segment := AllocPadded(pending, b, buf, ample);
      if segment.None? {
        return false;
      }
      PutPending(pending, b, segment.value);
      return true;
    }

    method WriteBlockToDisk(pending: Store, b: BlockItem, buf: seq<byte>, ample: bool, io: bool) returns (ok: bool)
      requires Valid() && Apart(pending) && pending.Valid() && b in pending.blocks && buf == b.content
      modifies `index, store`own, items`released, store.blocks`mem, store.blocks`disk
      modifies pending`own, b`disk
      ensures Valid() && index.Items <= old(index).Items
      ensures fresh(store.own.Keys - old(store.own.Keys)) && old(store.own.Keys) <= store.own.Keys
      ensures Apart(pending) && pending.Valid() && fresh(pending.own.Keys - old(pending.own.Keys))
      ensures ok && (io || !store.medium.fallsShort) ==> pending.Full(b)
      ensures (ok ==> b.disk != null) && (io && Granted(ample) ==> ok) && b.mem == old(b.mem)
      ensures pending.blocks == old(pending.blocks) && pending.Holdings() - {b} == old(pending.Holdings()) - {b}
      ensures ample ==> index == old(index) && store.Holdings() == old(store.Holdings())
    {
      hide ItemOk, Valid, Apart, NewTo, Store.Valid, Store.StockOf, Store.Holdings, Store.Full;
      ApartSizes(pending);
      var disk := AllocDiskBeside(pending, ample);
      if disk == null {
        return false;
      }
      ok := WriteToNewBlock(pending, b, disk, buf, io);
    }

    /** The block has a memory block, not yet flushed and whole, and the disk block it had, if any. */
    ghost predicate InMemoryAlone(b: BlockItem, disk: DiskBlockItem?)
      reads b, if b.mem == null then {} else {b.mem, b.mem.slices}
    {
      b.mem != null && b.mem.dirty && WholeInMemory(b) && b.disk == disk
    }

    /** _write_block: the whole block to memory or to disk, as the promotion policy says, or not at all;
        it succeeds if there is space and the system does as told.  No other block of the object is
        touched, and with ample space none of any other object. */
    method WriteBlock(pending: Store, b: BlockItem, buf: seq<byte>, location: BlockLocation, ample: bool, io: bool)
      returns (ok: bool)
      requires Valid() && Apart(pending) && pending.Valid() && b in pending.blocks && buf == b.content
      modifies `index, store`own, items`released, store.blocks`mem, store.blocks`disk, store.own.Keys
      modifies pending`own, b`mem, b`disk
      ensures Valid() && index.Items <= old(index).Items
      ensures fresh(store.own.Keys - old(store.own.Keys)) && old(store.own.Keys) <= store.own.Keys
      ensures Apart(pending) && pending.Valid() && fresh(pending.own.Keys - old(pending.own.Keys))
      ensures Granted(ample) && (location == MEM || (location == DISK && io)) ==> ok
      ensures ok ==> location != NONE
      ensures ok && location == MEM ==> InMemoryAlone(b, old(b.disk))
      ensures ok && location == DISK ==> b.disk != null && b.mem == old(b.mem)
      ensures ok && (io || !store.medium.fallsShort || location == MEM) ==> pending.Full(b)
      ensures pending.blocks == old(pending.blocks) && pending.Holdings() - {b} == old(pending.Holdings()) - {b}
      ensures ample ==> index == old(index) && store.Holdings() == old(store.Holdings())
    {
      hide Valid, Store.Valid, Store.StockOf, Store.Holdings, Store.Full, Apart, InMemoryAlone;
      match location
      case MEM => ok := WriteBlockToMemory(pending, b, buf, ample);
      case DISK => ok := WriteBlockToDisk(pending, b, buf, ample, io);
      case NONE => ok := false;
    }

    /** The buffer as memory will hold it: for direct I/O, padded to whole units. */
    method AlignBuffer(pending: Store, b: BlockItem, buf: seq<byte>) returns (padded: seq<byte>)
      requires pending.Valid() && b in pending.blocks && buf == b.content
      ensures forall addr :: Fits(pending.z, b.content, Segment(addr, 0, |buf|, padded))
    {
      hide AllOk, Sizes.Valid;
      padded := buf;
      PaddingFits(pending, b);
      var osPageCache: bool := *;
      if !osPageCache {
        var size := RoundUp(|buf|, pending.z.unit);
        padded := seq(size, k requires 0 <= k < size => if k < |buf| then buf[k] else 0);
      }
      assert padded[..|buf|] == buf;
    }

    lemma PaddingFits(pending: Store, b: BlockItem)
      requires pending.Valid() && b in pending.blocks
      ensures pending.z.Valid() && pending.z.unit > 0 && pending.z.slice > 0 && 0 < |b.content|
      ensures pending.z.Aligned(0) && RoundUp(|b.content|, pending.z.unit) <= pending.z.block &&
            |b.content| <= pending.z.block
    {
      var z := pending.z;
      ModUnique(z.block, z.slice, z.count, 0);
      Multiple(z.block, z.slice, z.unit);
      RoundUpBelow(|b.content|, z.block, z.unit);
    }

    /** One segment for the whole block, in a new dirty memory block. */
    method PutPending(pending: Store, b: BlockItem, segment: Segment)
      requires Valid() && Apart(pending) && pending.Valid() && b in pending.blocks
      requires Fits(pending.z, b.content, segment) && segment.offset == 0 && segment.size == |b.content|
      modifies pending`own, b`mem
      ensures Valid() && Apart(pending) && pending.Valid() && fresh(pending.own.Keys - old(pending.own.Keys))
      ensures pending.Full(b) && InMemoryAlone(b, old(b.disk))
      ensures pending.blocks == old(pending.blocks) && pending.Holdings() - {b} == old(pending.Holdings()) - {b}
      ensures store.Holdings() == old(store.Holdings())
    {
      hide Valid, Store.Valid, Store.StockOf, Store.Holdings, Store.Full, Fits, Listing, Continuous;
      ApartSizes(pending);
      PutWhole(pending, b, segment);
    }

    lemma WholeFits(pending: Store, b: BlockItem, segment: Segment)
      requires pending.Valid() && b in pending.blocks
      requires segment.offset == 0 && segment.size == |b.content| && segment.buf == b.content
      ensures pending.z.Valid() && AllFit(pending.z, b.content, [segment])
      ensures Continuous([segment], 0) == |b.content|
    {
      PaddingFits(pending, b);
    }

    method WriteToNewBlock(pending: Store, b: BlockItem, disk: DiskBlockItem, buf: seq<byte>, io: bool)
      returns (ok: bool)
      requires Valid() && Apart(pending) && pending.Valid() && b in pending.blocks && buf == b.content
      requires NewTo(pending, disk) && NewTo(pending, disk.data) && NewTo(pending, disk.checksums)
      requires disk.z == pending.z && disk.medium == pending.medium
      requires disk.data.Length == pending.z.block && disk.checksums.Length == pending.z.count
      modifies disk.data, disk.checksums, pending`own, b`disk
      ensures Valid() && Apart(pending) && pending.Valid() &&
            pending.own.Keys <= old(pending.own.Keys) + {disk, disk.data, disk.checksums}
      ensures ok && (io || !store.medium.fallsShort) ==> pending.Full(b)
      ensures (ok ==> b.disk != null) && (io ==> ok)
      ensures pending.blocks == old(pending.blocks) && pending.Holdings() - {b} == old(pending.Holdings()) - {b}
      ensures store.Holdings() == old(store.Holdings())
    {
      hide Valid, Apart, NewTo, Store.Valid, Store.StockOf, Store.Holdings, Store.Full, DiskBlockItem.Valid;
      ok := FillDisk(pending, b, disk, buf, io);
      if ok {
        AttachPending(pending, b, disk, io);
      }
    }

    /** All of the block's content to a disk block that is nobody's yet. */
    method FillDisk(pending: Store, b: BlockItem, disk: DiskBlockItem, buf: seq<byte>, io: bool)
      returns (ok: bool)
      requires Valid() && Apart(pending) && pending.Valid() && b in pending.blocks && buf == b.content
      requires NewTo(pending, disk) && NewTo(pending, disk.data) && NewTo(pending, disk.checksums)
      requires disk.z == pending.z && disk.medium == pending.medium
      requires disk.data.Length == pending.z.block && disk.checksums.Length == pending.z.count
      modifies disk.data, disk.checksums
      ensures Valid() && Apart(pending) && pending.Valid()
      ensures NewTo(pending, disk) && NewTo(pending, disk.data) && NewTo(pending, disk.checksums)
      ensures (ok ==> disk.Valid(b.content)) && (io ==> ok) && |b.content| <= disk.data.Length
      ensures io ==> Agrees(b.content, disk.data[..], 0, |b.content|)
      ensures pending.Holdings() == old(pending.Holdings()) && store.Holdings() == old(store.Holdings())
    {
      hide Valid, Store.Valid, Store.StockOf, Store.Holdings, Fits, DiskBlockItem.HasRoom;
      pending.Sound();
      var addr: nat := *;
      var segment := Segment(addr, 0, |buf|, buf);
      WholeFits(pending, b, segment);
      pending.Room(b, disk);
      ghost var full;
      ok, full := WriteSegments(disk, [segment], io, b.content);
      if ok { Whole(b, disk, full); }
    }

    method AttachPending(pending: Store, b: BlockItem, disk: DiskBlockItem, whole: bool)
      requires Valid() && Apart(pending) && pending.Valid() && b in pending.blocks
      requires NewTo(pending, disk) && NewTo(pending, disk.data) && NewTo(pending, disk.checksums)
      requires disk.z == pending.z && disk.medium == pending.medium && disk.Valid(b.content)
      requires whole ==> |b.content| <= disk.data.Length && Agrees(b.content, disk.data[..], 0, |b.content|)
      modifies pending`own, b`disk
      ensures Valid() && Apart(pending) && pending.Valid() &&
            pending.own.Keys == old(pending.own.Keys) + {disk, disk.data, disk.checksums}
      ensures b.disk == disk && (whole || !store.medium.fallsShort ==> pending.Full(b))
      ensures pending.Holdings() - {b} == old(pending.Holdings()) - {b} && store.Holdings() == old(store.Holdings())
    {
      hide Valid, Store.Valid, Store.StockOf, Store.Holdings, Store.Full, DiskBlockItem.Valid;
      ApartSizes(pending);
      pending.AttachDisk(b, disk);
      if whole || !store.medium.fallsShort { pending.FullOnDisk(b); }
    }

    /** The blocks of an object being written, one after the other. */
    method WriteBlocks(pending: Store, it: CacheItem, buf: seq<byte>, place: nat -> BlockLocation, ample: bool,
                       io: bool) returns (ok: bool)
      requires Valid() && Apart(pending) && pending.Valid() && it !in Mine() && buf == it.value
      requires ItemOk(store.z, pending.blocks, it)
      modifies `index, store`own, items`released, store.blocks`mem, store.blocks`disk, store.own.Keys
      modifies pending`own, pending.blocks`mem, pending.blocks`disk
      ensures Valid() && index.Items <= old(index).Items
      ensures fresh(store.own.Keys - old(store.own.Keys)) && old(store.own.Keys) <= store.own.Keys
      ensures Apart(pending) && pending.Valid() && fresh(pending.own.Keys - old(pending.own.Keys))
      ensures Granted(ample) && Placed(place, |it.blocks|, io) ==> ok
      ensures ok ==> NoneRejected(place, |it.blocks|)
      ensures ok && (io || !store.medium.fallsShort) ==>
              AllFullIn(store.z, pending.Holdings(), it.blocks, |it.blocks|)
      ensures ample ==> index == old(index) && store.Holdings() == old(store.Holdings())
    {
      hide ItemOk, NoShared, IndexOk, Store.Valid, Store.StockOf, Store.Holdings, Apart, AllFullIn, Going, Placed,
           NoneRejected;
      ok := true;
      GoingFirst(store.z, pending.Holdings(), it.blocks, place, Granted(ample), io);
      ApartSizes(pending);
      var i := 0;
      while i < |it.blocks| && ok
        invariant i <= |it.blocks| && Valid() && index.Items <= old(index).Items
        invariant fresh(store.own.Keys - old(store.own.Keys)) && old(store.own.Keys) <= store.own.Keys
        invariant Apart(pending) && pending.Valid() && pending.blocks == old(pending.blocks)
        invariant fresh(pending.own.Keys - old(pending.own.Keys))
        invariant Going(place, |it.blocks|, i, Granted(ample), io, ok)
        invariant ok && (io || !store.medium.fallsShort) ==> AllFullIn(store.z, pending.Holdings(), it.blocks, i)
        invariant ample ==> index == old(index) && store.Holdings() == old(store.Holdings())
        decreases |it.blocks| - i, ok
      {
        ok := WritePart(pending, it, i, buf, place(i), ample, io);
        GoesOn(place, |it.blocks|, i, Granted(ample), io, ok);
        if ok {
          i := i + 1;
        }
      }
      GoingDone(place, |it.blocks|, i, Granted(ample), io, ok);
    }

    /** The object's i-th block, the ones before it having been written. */
    method WritePart(pending: Store, it: CacheItem, i: nat, buf: seq<byte>, location: BlockLocation, ample: bool,
                     io: bool) returns (ok: bool)
      requires Valid() && Apart(pending) && pending.Valid() && buf == it.value && i < |it.blocks|
      requires ItemOk(store.z, pending.blocks, it)
      modifies `index, store`own, items`released, store.blocks`mem, store.blocks`disk, store.own.Keys
      modifies pending`own, pending.blocks`mem, pending.blocks`disk
      ensures Valid() && index.Items <= old(index).Items
      ensures fresh(store.own.Keys - old(store.own.Keys)) && old(store.own.Keys) <= store.own.Keys
      ensures Apart(pending) && pending.Valid() && fresh(pending.own.Keys - old(pending.own.Keys))
      ensures pending.blocks == old(pending.blocks)
      ensures Granted(ample) && (location == MEM || (location == DISK && io)) ==> ok
      ensures ok ==> location != NONE
      ensures ok && (io || !store.medium.fallsShort) ==>
              (old(AllFullIn(store.z, pending.Holdings(), it.blocks, i)) ==>
                 AllFullIn(store.z, pending.Holdings(), it.blocks, i + 1))
      ensures ample ==> index == old(index) && store.Holdings() == old(store.Holdings())
    {
      hide ItemOk, NoShared, IndexOk, Store.Valid, Store.StockOf, Store.Holdings, Store.Full, FullIn, Apart,
           BlockContent, InMemoryAlone, AllFullIn;
      ApartSizes(pending);
      PartOf(store.z, pending.blocks, it, i);
      var part := BlockContent(store.z, buf, i);
      ghost var before := pending.Holdings();
      ok := WriteBlock(pending, it.blocks[i], part, location, ample, io);
      if ok && (io || !store.medium.fallsShort) {
        FullThere(pending, it.blocks[i]);
        BlocksDiffer(store.z, pending.blocks, it);
        if AllFullIn(store.z, before, it.blocks, i) { AllFullStill(store.z, before, pending.Holdings(), it.blocks, i); }
      }
    }

    lemma FullThere(pending: Store, b: BlockItem)
      requires pending.z == store.z && pending.Valid() && b in pending.blocks && pending.Full(b)
      ensures FullIn(store.z, pending.Holdings(), b)
    {
      hide Had, Store.Valid, Store.StockOf, Store.Holdings;
      pending.HoldingOf(b);
    }

    /** What _alloc_cache_item may evict before the item is granted. */
    method EvictForCacheItem(ample: bool)
      requires Valid()
      modifies `index, store`own, items`released, store.blocks`mem, store.blocks`disk, store.own.Keys
      ensures Valid() && index.Items <= old(index).Items
      ensures fresh(store.own.Keys - old(store.own.Keys)) && old(store.own.Keys) <= store.own.Keys
      ensures ample ==> index == old(index) && store.Holdings() == old(store.Holdings())
    {
      hide ItemOk, NoShared, IndexOk, Store.Valid, Store.StockOf, Store.Holdings;
      for attempt := 0 to maxRetry
        invariant Valid() && index.Items <= old(index).Items
        invariant ample ==> attempt == 0 && index == old(index) && store.Holdings() == old(store.Holdings())
        invariant fresh(store.own.Keys - old(store.own.Keys)) && old(store.own.Keys) <= store.own.Keys
      {
        var granted: bool := *;
        if granted || ample {
          return;
        }
        EvictForMemBlock();
      }
    }

    method JoinBlocks(pending: Store)
      requires Valid() && Apart(pending) && pending.Valid()
      requires forall it: CacheItem :: it in items ==> it !in pending.own
      modifies store`blocks, store`own
      ensures Valid() && store.blocks == old(store.blocks) + pending.blocks
      ensures store.own == old(store.own) + pending.own
      ensures Extended(old(store.Holdings()), store.Holdings()) && Extended(old(pending.Holdings()), store.Holdings())
    {
      hide Store.Valid, Store.Holdings, Extended, NoShared, ItemOk, IndexOk;
      pending.BlocksNotOwned();
      store.TakeOver(pending);
      forall it | it in items
        ensures ItemOk(store.z, store.blocks, it)
      {
        KnownGrows(store.z, old(store.blocks), store.blocks, it);
      }
    }

    /** The index finds an item whose blocks have joined the cache. */
    method IndexItem(id: nat, it: CacheItem)
      requires Valid() && it !in store.own && ItemOk(store.z, store.blocks, it) && NoShared(items + {it})
      requires !it.released && keyToId(it.key) == id
      modifies `index, `items, `latest
      ensures Valid() && index == old(index)[id := it] && latest == old(latest)[it.key := it.value]
      ensures items == old(items) + {it}
    {
      hide Store.Valid, NoShared, ItemOk;
      items := items + {it};
      latest := latest[it.key := it.value];
      index := index[id := it];
    }

    /** A new item's blocks are nobody else's. */
    lemma ItemApart(it: CacheItem, pending: Store)
      requires Valid() && Apart(pending) && ItemOk(store.z, pending.blocks, it)
      ensures NoShared(items + {it})
    {
      hide Store.Valid, IndexOk, ItemOk;
      ApartSizes(pending);
      AllKnown();
      KnownBlocks(store.z, pending.blocks, it);
    }

    method InsertItem(id: nat, it: CacheItem, pending: Store)
      requires Valid() && Apart(pending) && pending.Valid() && NewTo(pending, it)
      requires ItemOk(store.z, pending.blocks, it) && !it.released && keyToId(it.key) == id
      modifies `index, `items, `latest, store`blocks, store`own
      ensures Valid() && index == old(index)[id := it] && latest == old(latest)[it.key := it.value]
      ensures store.blocks == old(store.blocks) + pending.blocks && items == old(items) + {it}
      ensures store.own.Keys == old(store.own.Keys) + pending.own.Keys
      ensures Extended(old(store.Holdings()), store.Holdings()) && Extended(old(pending.Holdings()), store.Holdings())
    {
      hide Store.Valid, Store.Holdings, NoShared, ItemOk, IndexOk;
      ItemApart(it, pending);
      JoinBlocks(pending);
      KnownGrows(store.z, pending.blocks, store.blocks, it);
      IndexItem(id, it);
    }

    method PrepareItem(key: Key, buf: Buffer, pinned: bool) returns (pending: Store, it: CacheItem)
      requires Valid() && buf != []
      ensures Valid() && Apart(pending) && pending.Valid() && NewTo(pending, it)
      ensures fresh(it) && fresh(pending) && fresh(pending.blocks) && fresh(pending.own.Keys)
      ensures store.Holdings() == old(store.Holdings())
      ensures it.key == key && it.value == buf && it.pinned == pinned && !it.released &&
            ItemOk(store.z, pending.blocks, it)
    {
      hide ItemOk, NoShared, IndexOk, Store.Valid, Store.StockOf, Store.Holdings;
      store.BlockPositive();
      store.Sound();
      pending := new Store(store.z, store.medium);
      it := NewCacheItem(pending, key, buf);
      it.pinned := pinned;
    }

    /** The promotion policy has a place for every block of an object of this size, and what it wants on
        disk the system writes there. */
    ghost predicate Welcome(place: nat -> BlockLocation, size: nat, io: bool) {
      store.z.block > 0 && Placed(place, BlockCount(store.z, size), io)
    }

    /** It rejects none of the blocks. */
    ghost predicate Tolerated(place: nat -> BlockLocation, size: nat) {
      store.z.block > 0 && NoneRejected(place, BlockCount(store.z, size))
    }

    lemma BlocksCounted(pending: Store, it: CacheItem)
      requires ItemOk(store.z, pending.blocks, it)
      ensures store.z.block > 0 && |it.blocks| == BlockCount(store.z, |it.value|)
    {}

    /** _write_cache_item: every block is written, or the index does not learn of the item. */
    method WriteCacheItem(id: nat, key: Key, buf: Buffer, pinned: bool, place: nat -> BlockLocation, ample: bool,
                          io: bool) returns (ok: bool)
      requires Valid() && buf != [] && id == keyToId(key) && id !in index
      modifies `index, `items, `latest, store`own, store`blocks
      modifies items`released, store.blocks`mem, store.blocks`disk, store.own.Keys
      ensures Valid()
      ensures fresh(store.blocks - old(store.blocks)) && fresh(items - old(items)) &&
            fresh(store.own.Keys - old(store.own.Keys))
      ensures ok ==> id in index && index[id].key == key && index[id].value == buf
      ensures ok ==> (index - {id}).Items <= old(index).Items
      ensures ok ==> fresh(index[id]) && index[id].pinned == pinned
      ensures Granted(ample) && Welcome(place, |buf|, io) ==> ok
      ensures ok ==> Tolerated(place, |buf|)
      ensures ok && (io || !store.medium.fallsShort) ==> Complete(index[id])
      ensures latest == if ok then old(latest)[key := buf] else old(latest)
      ensures !ok ==> index.Items <= old(index).Items
      ensures ample ==> index - {id} == old(index) && Extended(old(store.Holdings()), store.Holdings())
    {
      hide ItemOk, NoShared, IndexOk, Store.Valid, Store.StockOf, Store.Holdings, Complete, Apart, Extended;
      EvictForCacheItem(ample);
      KeysFollow(index, old(index));
      var pending, it := PrepareItem(key, buf, pinned);
      BlocksCounted(pending, it);
      ok := WriteItem(id, it, pending, buf, place, ample, io);
    }

    method WriteItem(id: nat, it: CacheItem, pending: Store, buf: Buffer, place: nat -> BlockLocation, ample: bool,
                     io: bool) returns (ok: bool)
      requires Valid() && Apart(pending) && pending.Valid() && NewTo(pending, it) && ItemOk(store.z, pending.blocks, it)
      requires it.value == buf && !it.released && id == keyToId(it.key) && id !in index
      modifies `index, `items, `latest, store`own, store`blocks, pending`own, pending.blocks`mem, pending.blocks`disk
      modifies items`released, store.blocks`mem, store.blocks`disk, store.own.Keys
      ensures Valid()
      ensures store.blocks == if ok then old(store.blocks) + pending.blocks else old(store.blocks)
      ensures items == if ok then old(items) + {it} else old(items)
      ensures fresh(store.own.Keys - old(store.own.Keys) - old(pending.own.Keys))
      ensures ok ==> id in index && index[id] == it && (index - {id}).Items <= old(index).Items
      ensures Granted(ample) && Placed(place, |it.blocks|, io) ==> ok
      ensures ok ==> NoneRejected(place, |it.blocks|)
      ensures ok && (io || !store.medium.fallsShort) ==> Complete(it)
      ensures latest == if ok then old(latest)[it.key := buf] else old(latest)
      ensures !ok ==> index.Items <= old(index).Items
      ensures ample ==> index - {id} == old(index) && Extended(old(store.Holdings()), store.Holdings())
    {
      hide ItemOk, NoShared, IndexOk, Store.Valid, Store.StockOf, Store.Holdings, AllFullIn, Extended;
      ExtendedItself(store.Holdings());
      ok := WriteBlocks(pending, it, buf, place, ample, io);
      if ok {
        ghost var written := pending.Holdings();
        InsertItem(id, it, pending);
        if io || !store.medium.fallsShort { AllFullMore(store.z, written, store.Holdings(), it.blocks); }
      }
    }

    /** set: an object that is stored can be read back in full, unless a write fell short; one that is
        refused leaves nothing behind, and what it was to replace is gone.  Of every other object there
        is what there was, if nothing had to be evicted; and nothing changes at all if the object is
        there already, or the cache is too busy. */
    method Set(key: Key, buf: Buffer, overwrite: bool, pinned: bool, busy: bool, place: nat -> BlockLocation,
               ample: bool, io: bool) returns (status: SetStatus)
      requires Valid()
      modifies `index, `items, `latest, store`own, store`blocks
      modifies items`released, store.blocks`mem, store.blocks`disk, store.own.Keys
      ensures Valid()
      ensures fresh(store.blocks - old(store.blocks)) && fresh(items - old(items)) &&
            fresh(store.own.Keys - old(store.own.Keys))
      ensures status == Exists <==> buf != [] && !busy && keyToId(key) in old(index) && !overwrite
      ensures buf == [] || busy ==> status == Refused
      ensures buf == [] || busy || status == Exists ==>
            unchanged(this, store, old(items), old(store.blocks), old(store.own.Keys))
      ensures status == Stored ==> keyToId(key) in index && index[keyToId(key)].key == key
      ensures status == Stored ==> index[keyToId(key)].value == buf && index[keyToId(key)].pinned == pinned
      ensures Granted(ample) && Welcome(place, |buf|, io) ==>
              (buf != [] && !busy && (overwrite || keyToId(key) !in old(index)) ==> status == Stored)
      ensures status == Stored ==> Tolerated(place, |buf|)
      ensures status == Stored && (io || !store.medium.fallsShort) ==> Complete(index[keyToId(key)])
      ensures status == Refused && buf != [] && !busy ==> keyToId(key) !in index
      ensures (index - {keyToId(key)}).Items <= old(index).Items
      ensures latest == if status == Stored then old(latest)[key := buf] else old(latest)
      ensures ample ==> forall o :: o in old(items) && o !in old(Found(keyToId(key))) ==> Have(o) == old(Have(o))
      ensures ample ==> index - {keyToId(key)} == old(index) - {keyToId(key)}
    {
      hide ItemOk, Store.Valid, Store.StockOf, Store.Holdings, Store.Full, IndexOk, Complete;
      if buf == [] || busy {
        return Refused;
      }
      var id := keyToId(key);
      if id in index && !overwrite {
        return Exists;
      }
      AllKnown();
      IndexWithout(id);
      ghost var h0 := store.Holdings();
      MakeWay(id);
      ghost var before, h1 := index, store.Holdings();
      var ok := WriteCacheItem(id, key, buf, pinned, place, ample, io);
      WithoutStays(index, before, old(index), id, ok);
      status := if ok then Stored else Refused;
      if ample {
        forall o | o in old(items) && o !in old(Found(keyToId(key)))
          ensures Have(o) == old(Have(o))
        {
          ShownStill(h0, h1, old(FoundBlocks(id)), o.blocks);
          ShownMore(h1, store.Holdings(), o.blocks);
        }
      }
    }

    /** What is stored under the id goes. */
    method MakeWay(id: nat)
      requires Valid()
      modifies `index, FoundBlocks(id)`mem, FoundBlocks(id)`disk
      ensures Valid() && index == old(index) - {id}
      ensures store.Holdings() - old(FoundBlocks(id)) == old(store.Holdings()) - old(FoundBlocks(id))
      ensures forall o, b :: o in items && o !in old(Found(id)) && b in o.blocks ==> b !in old(FoundBlocks(id))
    {
      hide ItemOk, NoShared, Store.Valid, Store.StockOf, Store.Holdings;
      if id in index {
        IndexWithout(id);
        OthersApart(index[id]);
        RemoveCacheItem(id, index[id]);
      }
    }

    /** Every block of the item can be read in full. */
    ghost predicate Complete(it: CacheItem)
      reads store, store.blocks, store.own.Keys
    {
      AllFullIn(store.z, store.Holdings(), it.blocks, |it.blocks|)
    }

    lemma IndexWithout(id: nat)
      requires Valid()
      ensures ValidBut(id)
      ensures id in index ==> index[id] in items && index[id].key in latest && keyToId(index[id].key) == id
    {}

    /** What the index finds under an id: an item, or nothing. */
    ghost function Found(id: nat): set<CacheItem>
      reads this
    {
      if id in index then {index[id]} else {}
    }

    ghost function FoundBlocks(id: nat): set<BlockItem>
      reads this
    {
      if id in index then BlocksOf(index[id]) else {}
    }

    lemma OthersApart(it: CacheItem)
      requires Valid() && it in items
      ensures forall o, b :: o in items && o != it && b in o.blocks ==> b !in it.blocks
    {}

    // ----- Reading ---------------------------------------------------------------------------------------

    /** _read_block, and the promotion of what it fetched from disk.  The outcome is that of the block
        read, promotion or not; in ample space the promotion leaves all of the range in memory.  From
        memory alone a range is read whatever the system does, and then nothing changes. */
    method ReadBlock(b: BlockItem, offset: nat, size: nat, io: bool, promote: bool, ample: bool)
      returns (ok: bool, buf: seq<byte>)
      requires Valid() && b in store.blocks && 0 < size && offset + size <= |b.content|
      requires store.z.slice > 0 && store.z.Valid() && (EndsWell(store.z, b.content, offset + size) || !promote)
      modifies `index, store`own, items`released, store.blocks`mem, store.blocks`disk, store.own.Keys
      ensures Valid() && index.Items <= old(index).Items
      ensures fresh(store.own.Keys - old(store.own.Keys)) && old(store.own.Keys) <= store.own.Keys
      ensures ok && (EndsWell(store.z, b.content, offset + size) || !store.medium.fallsShort) ==>
              buf == b.content[offset..offset + size]
      ensures io && GoodRange(store.z, b.content, offset, size) ==>
              (ok <==> old(Had(store.z, b.content, store.StockOf(b), offset, size)))
      ensures old(Had(store.z, b.content, MemoryOnly(store.StockOf(b)), offset, size)) ==>
              ok && buf == b.content[offset..offset + size] &&
                unchanged(this, store, old(items), old(store.blocks), old(store.own.Keys))
      ensures ok && promote && Granted(ample) ==>
              Had(store.z, b.content, MemoryOnly(store.StockOf(b)), offset, size)
      ensures !promote ==> unchanged(this, store, old(items), old(store.blocks), old(store.own.Keys))
      ensures ample ==> index == old(index) && store.Holdings() - {b} == old(store.Holdings()) - {b}
      ensures ample ==> HeldOn(old(store.Holdings()), store.Holdings())
    {
      hide ItemOk, NoShared, IndexOk, Store.Valid, Store.StockOf, Store.Holdings, HeldOn, NoLess, Had, Fits, EndsWell,
           GoodRange, Sourced, Alike, Written, Held;
      HeldOnItself(store.Holdings());
      store.MemHeld(b);
      ghost var st := store.StockOf(b);
      store.SlicesOf(b);
      var diskSegments;
      ok, buf, diskSegments := store.ReadBlock(b, offset, size, io);
      if ok && diskSegments == [] { AllSourced(store.z, b.content, st, offset, size); }
      if ok && diskSegments != [] && promote {
        ghost var h := store.Holdings();
        store.HoldingOf(b);
        var promoted, before := PromoteBlockSegments(b, diskSegments, ample);
        if ample {
          store.HoldingOf(b);
          HeldOnBut(h, store.Holdings(), b);
        }
        if Granted(ample) {
          SourcedIn(store.z, b.content, st.ss, diskSegments, promoted, offset, offset + size);
          store.SlicesOf(b);
          AlikeSome(diskSegments, promoted);
        }
      }
    }

    lemma BlockExists(it: CacheItem, upper: nat, i: nat)
      requires Valid() && it in items && upper < |it.value| && i <= upper / store.z.block
      ensures i < |it.blocks| && it.blocks[i] in store.blocks && i * store.z.block < |it.value|
      ensures it.blocks[i].content == BlockContent(store.z, it.value, i)
    {
      DivMono(upper, it.size - 1, store.z.block);
    }

    /** What a read up to `upper` returns is right: it ends with a slice, or transfers never fall short. */
    ghost predicate SureTo(total: nat, upper: nat)
      requires store.z.slice > 0
    {
      EndsClean(store.z, total, upper) || !store.medium.fallsShort
    }

    /** Bytes from..to of the object, all in its i-th block. */
    method ReadPart(it: CacheItem, lower: nat, upper: nat, i: nat, from: nat, to: nat, io: bool, promote: bool,
                    ample: bool)
      returns (ok: bool, buf: seq<byte>)
      requires Valid() && it in items && lower <= upper < |it.value| && store.z.slice > 0 && store.z.block > 0
      requires EndsClean(store.z, it.size, upper) || !promote
      requires InBlock(store.z, lower, upper, i, from, to)
      modifies `index, store`own, items`released, store.blocks`mem, store.blocks`disk, store.own.Keys
      ensures Valid() && index.Items <= old(index).Items
      ensures fresh(store.own.Keys - old(store.own.Keys)) && old(store.own.Keys) <= store.own.Keys
      ensures from <= to <= |it.value| && (ok && SureTo(it.size, upper) ==> buf == it.value[from..to])
      ensures PartOutcome(store.z, it.value, old(Have(it)), Have(it), lower, upper, i,
                          io && Clean(it, lower, upper), promote && Granted(ample), ok)
      ensures PartHad(store.z, it.value, InMemoryOnly(old(Have(it))), lower, upper, i) ==>
              buf == it.value[from..to] &&
                unchanged(this, store, old(items), old(store.blocks), old(store.own.Keys))
      ensures !promote ==> unchanged(this, store, old(items), old(store.blocks), old(store.own.Keys))
      ensures ample ==> index == old(index) && HeldOn(old(store.Holdings()), store.Holdings())
      ensures ample || !promote || PartHad(store.z, it.value, InMemoryOnly(old(Have(it))), lower, upper, i) ==>
              OthersStay(old(Have(it)), Have(it), i)
    {
      hide ItemOk, NoShared, IndexOk, Store.Valid, Store.StockOf, Store.Holdings, HeldOn, NoLess, Had, PartHad,
           PartFrom, PartTo, BlockContent, EndsClean, EndsWell, OthersStay, Shown, Sizes.Aligned;
      ItemShape(it);
      BlockRange(store.z, it.value, lower, upper, i, i * store.z.block, from, to);
      BlockExists(it, upper, i);
      HaveAt(it, i);
      ghost var h, stocks := store.Holdings(), Have(it);
      PartIs(store.z, it.value, stocks, lower, upper, i, from, to);
      PartIs(store.z, it.value, InMemoryOnly(stocks), lower, upper, i, from, to);
      ok, buf := ReadBlock(it.blocks[i], from - i * store.z.block, to - from, io, promote, ample);
      HaveAt(it, i);
      PartIs(store.z, it.value, InMemoryOnly(Have(it)), lower, upper, i, from, to);
      if ample || store.Holdings() == h { OtherPartsStay(it, i, h); }
    }

    /** The range of the item begins with a slice, and ends with one or with the item. */
    ghost predicate Clean(it: CacheItem, lower: nat, upper: nat)
      requires store.z.slice > 0
    {
      store.z.Aligned(lower) && EndsClean(store.z, it.size, upper)
    }

    /** Of the item's other blocks there is what there was. */
    lemma OtherPartsStay(it: CacheItem, i: nat, before: Holding)
      requires Valid() && it in items && i < |it.blocks|
      requires store.Holdings() - {it.blocks[i]} == before - {it.blocks[i]}
      ensures OthersStay(Shown(before, it.blocks), Have(it), i)
    {
      hide NoShared, IndexOk, Store.Valid, Store.StockOf, Store.Holdings;
      var b, after := it.blocks[i], store.Holdings();
      forall j | 0 <= j < |it.blocks| && j != i
        ensures Have(it)[j] == Shown(before, it.blocks)[j]
      {
        var o := it.blocks[j];
        assert o != b && (o in after <==> o in after - {b}) && (o in before <==> o in before - {b});
        if o in after { assert (after - {b})[o] == (before - {b})[o]; }
      }
    }

    lemma HaveAt(it: CacheItem, i: nat)
      requires Valid() && i < |it.blocks| && it.blocks[i] in store.blocks
      ensures Have(it)[i] == store.StockOf(it.blocks[i])
    {
      hide Store.Valid, Store.StockOf, Store.Holdings;
      store.HoldingOf(it.blocks[i]);
    }

    /** All that a read fetches from disk is put in memory, and there is space for it. */
    ghost predicate Promotes(promote: nat -> bool, ample: bool) {
      Always(promote) && Granted(ample)
    }

    /** Nothing is evicted to make room for what a read fetches. */
    ghost predicate NoneEvicted(promote: nat -> bool, ample: bool) {
      ample || Never(promote)
    }

    /** The next of the blocks of the range, of which the first ones have been read. */
    method ReadNext(it: CacheItem, lower: nat, upper: nat, i: nat, cursor: nat, io: bool,
                    promote: nat -> bool, ample: bool, buf: seq<byte>, ghost first: seq<Stock>, ghost exactly: bool,
                    ghost sure: bool)
      returns (ok: bool, cursor': nat, buf': seq<byte>)
      requires Valid() && it in items && lower <= upper < |it.value| && store.z.slice > 0 && store.z.block > 0
      requires EndsClean(store.z, it.size, upper) || Never(promote)
      requires i <= store.z.BlockOf(upper) && ReadUpTo(store.z, it.value, lower, upper, i, cursor, sure, buf)
      requires exactly ==> io && Clean(it, lower, upper) && NoneEvicted(promote, ample)
      requires PartsRead(store.z, it.value, first, Have(it), lower, upper, i, exactly, Promotes(promote, ample),
                         true)
      requires sure ==> SureTo(it.size, upper) || RangeHad(store.z, it.value, InMemoryOnly(first), lower, upper)
      modifies `index, store`own, items`released, store.blocks`mem, store.blocks`disk, store.own.Keys
      ensures Valid() && index.Items <= old(index).Items
      ensures fresh(store.own.Keys - old(store.own.Keys)) && old(store.own.Keys) <= store.own.Keys
      ensures ok ==> ReadUpTo(store.z, it.value, lower, upper, i + 1, cursor', sure, buf')
      ensures PartsRead(store.z, it.value, first, Have(it), lower, upper, if ok then i + 1 else i, exactly,
                        Promotes(promote, ample), ok)
      ensures RangeHad(store.z, it.value, InMemoryOnly(first), lower, upper) || Never(promote) ==>
              unchanged(this, store, old(items), old(store.blocks), old(store.own.Keys))
      ensures ample ==> index == old(index) && HeldOn(old(store.Holdings()), store.Holdings())
    {
      hide ItemOk, NoShared, IndexOk, Store.Valid, Store.StockOf, Store.Holdings, HeldOn, Have, PartHad, InBlock,
           PartLength, PartFrom, PartTo, EndsClean, SureTo, InMemoryOnly, OthersStay, PartsRead, RangeHad, Clean,
           Sizes.Aligned;
      store.BlockPositive();
      NextPart(store.z, lower, upper, i, cursor);
      var toRead := PartLength(store.z, upper, i, cursor);
      ghost var now, keeps := Have(it), Promotes(promote, ample);
      if RangeHad(store.z, it.value, InMemoryOnly(first), lower, upper) {
        CachedPart(store.z, it.value, first, now, lower, upper, i, exactly, keeps);
      }
      var part;
      ok, part := ReadPart(it, lower, upper, i, cursor, cursor + toRead, io, promote(i), ample);
      cursor', buf' := cursor + toRead, buf + part;
      if ok { SlicesJoin(it.value, lower, cursor, cursor'); }
      PartsReadOn(store.z, it.value, first, now, Have(it), lower, upper, i, exactly, keeps, ok);
    }

    /** The blocks of the range one after the other, until one cannot be read. */
    method ReadBlocks(it: CacheItem, lower: nat, upper: nat, io: bool, promote: nat -> bool, ample: bool)
      returns (ok: bool, buf: seq<byte>)
      requires Valid() && it in items && lower <= upper < |it.value| && store.z.slice > 0 && store.z.block > 0
      requires EndsClean(store.z, it.size, upper) || Never(promote)
      modifies `index, store`own, items`released, store.blocks`mem, store.blocks`disk, store.own.Keys
      ensures Valid() && index.Items <= old(index).Items
      ensures fresh(store.own.Keys - old(store.own.Keys)) && old(store.own.Keys) <= store.own.Keys
      ensures ok && SureTo(it.size, upper) ==> buf == it.value[lower..upper + 1]
      ensures RangeOutcome(store.z, it.value, old(Have(it)), Have(it), lower, upper,
                           io && Clean(it, lower, upper) && NoneEvicted(promote, ample), Promotes(promote, ample), ok)
      ensures RangeHad(store.z, it.value, InMemoryOnly(old(Have(it))), lower, upper) ==>
              ok && buf == it.value[lower..upper + 1]
      ensures RangeHad(store.z, it.value, InMemoryOnly(old(Have(it))), lower, upper) || Never(promote) ==>
              unchanged(this, store, old(items), old(store.blocks), old(store.own.Keys))
      ensures ample ==> index == old(index) && HeldOn(old(store.Holdings()), store.Holdings())
    {
      hide Valid, Store.StockOf, Store.Holdings, HeldOn, Have, PartHad, ReadUpTo, EndsClean, SureTo, InMemoryOnly,
           PartsRead, RangeHad, Clean, Sizes.Aligned, Promotes, NoneEvicted, Never;
      ghost var z, stocks := store.z, Have(it);
      ghost var exactly := io && Clean(it, lower, upper) && NoneEvicted(promote, ample);
      ghost var sure := SureTo(it.size, upper) || RangeHad(z, it.value, InMemoryOnly(stocks), lower, upper);
      ghost var i, cursor;
      ok, buf, i, cursor := ReadOn(it, lower, upper, io, promote, ample, exactly, sure);
      PartsReadAll(z, it.value, stocks, Have(it), lower, upper, i, exactly, Promotes(promote, ample), ok);
      if ok { AllRead(z, it.value, lower, upper, cursor, sure, buf); }
    }

    /** As far as that goes: the first `n` blocks, up to offset `to`. */
    method ReadOn(it: CacheItem, lower: nat, upper: nat, io: bool, promote: nat -> bool, ample: bool,
                  ghost exactly: bool, ghost sure: bool)
      returns (ok: bool, buf: seq<byte>, ghost n: nat, ghost to: nat)
      requires Valid() && it in items && lower <= upper < |it.value| && store.z.slice > 0 && store.z.block > 0
      requires EndsClean(store.z, it.size, upper) || Never(promote)
      requires exactly ==> io && Clean(it, lower, upper) && NoneEvicted(promote, ample)
      requires sure ==> SureTo(it.size, upper) || RangeHad(store.z, it.value, InMemoryOnly(Have(it)), lower, upper)
      modifies `index, store`own, items`released, store.blocks`mem, store.blocks`disk, store.own.Keys
      ensures Valid() && index.Items <= old(index).Items
      ensures fresh(store.own.Keys - old(store.own.Keys)) && old(store.own.Keys) <= store.own.Keys
      ensures store.z.BlockOf(lower) <= n && (ok ==> n == store.z.BlockOf(upper) + 1)
      ensures ok ==> ReadUpTo(store.z, it.value, lower, upper, n, to, sure, buf)
      ensures PartsRead(store.z, it.value, old(Have(it)), Have(it), lower, upper, n, exactly,
                        Promotes(promote, ample), ok)
      ensures RangeHad(store.z, it.value, InMemoryOnly(old(Have(it))), lower, upper) || Never(promote) ==>
              unchanged(this, store, old(items), old(store.blocks), old(store.own.Keys))
      ensures ample ==> index == old(index) && HeldOn(old(store.Holdings()), store.Holdings())
    {
      hide ItemOk, NoShared, IndexOk, Store.Valid, Store.StockOf, Store.Holdings, HeldOn, Have, PartHad, ReadUpTo,
           EndsClean, SureTo, InMemoryOnly, PartsRead, RangeHad, Clean, Sizes.Aligned, Sizes.BlockOf, Promotes,
           NoneEvicted, Never;
      HeldOnItself(store.Holdings());
      var start, end := store.z.BlockOf(lower), store.z.BlockOf(upper);
      ghost var z, stocks, keeps := store.z, Have(it), Promotes(promote, ample);
      ok, buf := true, [];
      var cursor: nat, i: nat := lower, start;
      NothingRead(z, it.value, stocks, lower, upper, exactly, keeps, sure);
      while i <= end && ok
        invariant start <= i <= end + 1 && Valid() && index.Items <= old(index).Items
        invariant fresh(store.own.Keys - old(store.own.Keys)) && old(store.own.Keys) <= store.own.Keys
        invariant ok ==> ReadUpTo(z, it.value, lower, upper, i, cursor, sure, buf)
        invariant RangeHad(z, it.value, InMemoryOnly(stocks), lower, upper) || Never(promote) ==>
                    unchanged(this, store, old(items), old(store.blocks), old(store.own.Keys))
        invariant ample ==> index == old(index) && HeldOn(old(store.Holdings()), store.Holdings())
        invariant PartsRead(z, it.value, stocks, Have(it), lower, upper, i, exactly, keeps, ok)
        decreases end + 1 - i, ok
      {
        label Before:
        ok, cursor, buf := ReadNext(it, lower, upper, i, cursor, io, promote, ample, buf, stocks, exactly, sure);
        if ample { HeldOnThrough(old(store.Holdings()), old@Before(store.Holdings()), store.Holdings()); }
        if ok {
          i := i + 1;
        }
      }
      n, to := i, cursor;
    }

    lemma ItemShape(it: CacheItem)
      requires Valid() && it in items
      ensures store.z.Valid() && store.z.slice > 0 && store.z.block > 0 && 0 < |it.value| == it.size
    {}

    /** What a read returns is right: it reads no slice in part, or transfers never fall short. */
    ghost predicate Sure(total: uint64, offset: uint64, size: uint64)
      requires store.z.slice > 0
    {
      Even(store.z, total, offset, size) || !store.medium.fallsShort
    }

    /** _read_cache_item: the range, clipped to the object and aligned to slices, block by block. */
    method ReadCacheItem(it: CacheItem, offset: uint64, size: uint64, io: bool, promote: nat -> bool, ample: bool)
      returns (ok: bool, buf: seq<byte>)
      requires Valid() && it in items && store.z.slice > 0 && store.z.block > 0
      requires Even(store.z, it.size, offset, size) || Never(promote)
      modifies `index, store`own, items`released, store.blocks`mem, store.blocks`disk, store.own.Keys
      ensures Valid() && index.Items <= old(index).Items
      ensures fresh(store.own.Keys - old(store.own.Keys)) && old(store.own.Keys) <= store.own.Keys
      ensures ok && Sure(it.size, offset, size) ==> buf == Answer(store.z, it.value, offset, size)
      ensures io && NoneEvicted(promote, ample) && Even(store.z, it.size, offset, size) ==>
              (ok <==> Answerable(store.z, it.value, old(Have(it)), offset, size))
      ensures Answerable(store.z, it.value, InMemoryOnly(old(Have(it))), offset, size) ==>
              ok && buf == Answer(store.z, it.value, offset, size) &&
                unchanged(this, store, old(items), old(store.blocks), old(store.own.Keys))
      ensures ok && Promotes(promote, ample) ==>
              Answerable(store.z, it.value, InMemoryOnly(Have(it)), offset, size)
      ensures Never(promote) ==> unchanged(this, store, old(items), old(store.blocks), old(store.own.Keys))
      ensures ample ==> index == old(index) && HeldOn(old(store.Holdings()), store.Holdings())
    {
      hide ItemOk, NoShared, IndexOk, Store.Valid, Store.StockOf, Store.Holdings, HeldOn, Have, RangeHad, Narrow,
           Lower, Upper, EndsClean, InMemoryOnly, Sizes.Valid, Sizes.Aligned;
      ItemShape(it);
      HeldOnItself(store.Holdings());
      var n := ClippedSize(it.size, offset, size);
      if n == 0 {
        return true, [];
      }
      UpperInside(store.z, it.size, LastByte(offset, n));
      var lower, upper := Lower(store.z, offset), Upper(store.z, it.size, LastByte(offset, n));
      if lower <= upper {
        ok, buf := ReadBlocks(it, lower, upper, io, promote, ample);
      } else {
        // No block is in the range.  In one block, a negative number of bytes is asked for, which as a size is
        // more than any block has: the read does not succeed.
        ok, buf := upper + 1 == lower || lower / store.z.block != upper / store.z.block, [];
      }
      buf := Trimmed(buf, offset - lower, n);
    }

    /** What a key finds: an item of that key, not merely of its id. */
    predicate Finds(key: Key)
      reads this, index.Values
    {
      keyToId(key) in index && index[keyToId(key)].key == key && !index[keyToId(key)].released
    }

    ghost predicate CanAnswer(it: CacheItem, offset: uint64, size: uint64)
      reads store, store.blocks, store.own.Keys
    {
      store.z.slice > 0 && store.z.block > 0 && Answerable(store.z, it.value, Have(it), offset, size)
    }

    /** Memory alone has all that a read of the item needs. */
    ghost predicate FromMemory(it: CacheItem, offset: uint64, size: uint64)
      reads store, store.blocks, store.own.Keys
    {
      && store.z.slice > 0 && store.z.block > 0
      && Answerable(store.z, it.value, InMemoryOnly(Have(it)), offset, size)
    }

    /** What the key finds can be read, and can be read from memory alone. */
    ghost predicate Answers(key: Key, offset: uint64, size: uint64)
      reads this, index.Values, store, store.blocks, store.own.Keys
    {
      Finds(key) && CanAnswer(index[keyToId(key)], offset, size)
    }

    ghost predicate AnswersFromMemory(key: Key, offset: uint64, size: uint64)
      reads this, index.Values, store, store.blocks, store.own.Keys
    {
      Finds(key) && FromMemory(index[keyToId(key)], offset, size)
    }

    ghost predicate AnswersWhole(key: Key)
      reads this, index.Values, store, store.blocks, store.own.Keys
    {
      Finds(key) && CanAnswer(index[keyToId(key)], 0, index[keyToId(key)].size)
    }

    ghost predicate AnswersWholeFromMemory(key: Key)
      reads this, index.Values, store, store.blocks, store.own.Keys
    {
      Finds(key) && FromMemory(index[keyToId(key)], 0, index[keyToId(key)].size)
    }

    /** A read of what the key finds, if anything, reads no slice in part. */
    predicate EvenFor(key: Key, offset: uint64, size: uint64)
      requires store.z.slice > 0
      reads this, index.Values
    {
      Finds(key) ==> Even(store.z, index[keyToId(key)].size, offset, size)
    }

    /** read: a read that succeeds returns what the key was last set to, whatever has been flushed,
        promoted or evicted since, and whatever other keys have the same id: the range asked for, or, if
        offsets wrap at 32 bits or the read's end at 64, perhaps only a first part of it.  If the system
        does as told it succeeds exactly when all it needs can be had, promotion or not, given space; if
        memory has it all, whatever the system does, and without any change; and it will have it all, if
        the read promotes and there is space. */
    method Read(key: Key, offset: uint64, size: uint64, io: bool, promote: nat -> bool, ample: bool)
      returns (ok: bool, buf: seq<byte>)
      requires Valid() && store.z.slice > 0 && (EvenFor(key, offset, size) || Never(promote))
      modifies `index, store`own, items`released, store.blocks`mem, store.blocks`disk, store.own.Keys
      ensures Valid() && index.Items <= old(index).Items
      ensures fresh(store.own.Keys - old(store.own.Keys)) && old(store.own.Keys) <= store.own.Keys
      ensures ok ==> key in latest && latest == old(latest) && old(Finds(key))
      ensures ok && Sure(|latest[key]|, offset, size) ==> buf == Answer(store.z, latest[key], offset, size)
      ensures ok && Sure(|latest[key]|, offset, size) ==> buf <= Clip(latest[key], offset, size)
      ensures ok && Sure(|latest[key]|, offset, size) ==>
              (buf == Clip(latest[key], offset, size) <==> Exact(store.z, |latest[key]|, offset, size))
      ensures io && NoneEvicted(promote, ample) && old(EvenFor(key, offset, size)) ==>
              (ok <==> old(Answers(key, offset, size)))
      ensures old(AnswersFromMemory(key, offset, size)) ==>
              ok && buf == Answer(store.z, latest[key], offset, size) &&
                unchanged(this, store, old(items), old(store.blocks), old(store.own.Keys))
      ensures ok && Promotes(promote, ample) ==> AnswersFromMemory(key, offset, size)
      ensures Never(promote) ==> unchanged(this, store, old(items), old(store.blocks), old(store.own.Keys))
      ensures ample ==> index == old(index) && HeldOn(old(store.Holdings()), store.Holdings())
    {
      hide ItemOk, NoShared, Store.Valid, Store.StockOf, Store.Holdings, HeldOn, NoLess, Answerable, Answer, Clip,
           Exact, Even, Have, InMemoryOnly;
      HeldOnItself(store.Holdings());
      var id := keyToId(key);
      if id !in index || index[id].key != key || index[id].released {
        return false, [];
      }
      var it := index[id];
      ItemShape(it);
      ok, buf := ReadCacheItem(it, offset, size, io, promote, ample);
      AnswerPrefix(store.z, it.value, offset, size);
      AnswerExact(store.z, it.value, offset, size);
    }

    /** What was read once with promotion, given space, is read again from memory, whatever the system
        does: the same bytes, and nothing changes. */
    method ReadTwice(key: Key, offset: uint64, size: uint64, io: bool, again: nat -> bool)
      returns (ok: bool, buf: seq<byte>, ok': bool, buf': seq<byte>)
      requires Valid() && store.z.slice > 0 && EvenFor(key, offset, size)
      modifies `index, store`own, items`released, store.blocks`mem, store.blocks`disk, store.own.Keys
      ensures Valid() && index.Items <= old(index).Items
      ensures io ==> (ok <==> old(Answers(key, offset, size)))
      ensures ok && maxRetry > 0 ==> ok' && buf' == buf
    {
      hide ItemOk, NoShared, Store.Valid, Store.StockOf, Store.Holdings, HeldOn, Answerable, Answer, Clip, Exact, Even,
           Have, InMemoryOnly, FromMemory;
      if Finds(key) { ItemShape(index[keyToId(key)]); }
      ok, buf := Read(key, offset, size, io, _ => true, true);
      var io': bool, ample': bool := *, *;
      ok', buf' := Read(key, offset, size, io', again, ample');
    }

    /** While nothing is lost of any block, what could be answered of an item still can. */
    lemma StillAnswered(it: CacheItem, before: Holding, offset: uint64, size: uint64)
      requires Valid() && it in items && HeldOn(before, store.Holdings())
      requires store.z.slice > 0 && store.z.block > 0 &&
            Answerable(store.z, it.value, Shown(before, it.blocks), offset, size)
      ensures CanAnswer(it, offset, size)
    {
      hide Store.Valid, Store.Holdings, ItemOk, Answerable, AllNoLess, HeldOn;
      BlocksHeld(it, before);
      ShownGrows(before, store.Holdings(), it.blocks);
      AnswerableStill(store.z, it.value, Shown(before, it.blocks), Have(it), offset, size);
    }

    lemma BlocksHeld(it: CacheItem, before: Holding)
      requires Valid() && it in items && HeldOn(before, store.Holdings())
      ensures forall b :: b in it.blocks ==> b in before
    {
      hide Store.Valid, NoLess;
      BlocksKnown(it);
    }

    lemma AllKnown()
      requires Valid()
      ensures forall it, b :: it in items && b in it.blocks ==> b in store.blocks
    {}

    /** A get of what the key finds, if anything, reads no slice in part. */
    predicate GetsEven(key: Key)
      requires store.z.slice > 0
      reads this, index.Values
    {
      Finds(key) ==> Even(store.z, index[keyToId(key)].size, 0, index[keyToId(key)].size)
    }

    /** get: the whole object; all of it, if its last slice ends within 32 bits. */
    method Get(key: Key, io: bool, promote: nat -> bool, ample: bool) returns (ok: bool, buf: seq<byte>)
      requires Valid() && store.z.slice > 0
      requires GetsEven(key) || Never(promote)
      modifies `index, store`own, items`released, store.blocks`mem, store.blocks`disk, store.own.Keys
      ensures Valid() && index.Items <= old(index).Items
      ensures fresh(store.own.Keys - old(store.own.Keys)) && old(store.own.Keys) <= store.own.Keys
      ensures ok ==> key in latest && latest == old(latest) && latest[key] != []
      ensures ok && Sure(|latest[key]|, 0, |latest[key]|) ==> buf <= latest[key]
      ensures ok && Sure(|latest[key]|, 0, |latest[key]|) ==>
              (buf == latest[key] <==> Narrow(store.z, |latest[key]| - 1))
      ensures io && NoneEvicted(promote, ample) && old(GetsEven(key)) ==>
              (ok <==> old(AnswersWhole(key)))
      ensures old(AnswersWholeFromMemory(key)) ==>
              ok && buf == Answer(store.z, latest[key], 0, |latest[key]|) &&
                unchanged(this, store, old(items), old(store.blocks), old(store.own.Keys))
      ensures ok && Promotes(promote, ample) ==> AnswersWholeFromMemory(key)
      ensures ample ==> index == old(index) && HeldOn(old(store.Holdings()), store.Holdings())
      ensures Never(promote) ==> unchanged(this, store, old(items), old(store.blocks), old(store.own.Keys))
    {
      hide ItemOk, NoShared, Store.Valid, Store.StockOf, Store.Holdings, HeldOn, NoLess, Answerable, Answer, Narrow,
           Even, Have, InMemoryOnly;
      HeldOnItself(store.Holdings());
      var id := keyToId(key);
      if id !in index || index[id].key != key || index[id].released {
        return false, [];
      }
      var it := index[id];
      ItemShape(it);
      ok, buf := ReadCacheItem(it, 0, it.size, io, promote, ample);
      WholeAnswer(store.z, it.value);
    }

    /** The item that is removed, pinned or unpinned under a key, if there is one. */
    ghost function Named(key: Key): set<CacheItem>
      reads this
    {
      if keyToId(key) in index && index[keyToId(key)].key == key then {index[keyToId(key)]} else {}
    }

    ghost function NamedBlocks(key: Key): set<BlockItem>
      reads this
    {
      if keyToId(key) in index && index[keyToId(key)].key == key then BlocksOf(index[keyToId(key)]) else {}
    }

    /** remove: the key finds nothing any more.  Another key is left alone, with all there is of its
        object, even if it has the same id. */
    method Remove(key: Key) returns (found: bool)
      requires Valid()
      modifies `index, `latest, Named(key)`released, NamedBlocks(key)`mem, NamedBlocks(key)`disk
      ensures Valid() && !Finds(key) && latest == old(latest) - {key}
      ensures found <==> old(Named(key)) != {}
      ensures index == if found then old(index) - {keyToId(key)} else old(index)
      ensures forall o :: o in old(Named(key)) ==> Empty(o)
      ensures forall o :: o in items && o !in old(Named(key)) ==> Have(o) == old(Have(o))
    {
      hide ItemOk, NoShared, Store.Valid, Store.StockOf, Store.Holdings;
      var id := keyToId(key);
      ghost var h := store.Holdings();
      found := id in index && index[id].key == key;
      if found {
        var it := index[id];
        IndexWithout(id);
        OthersApart(it);
        it.released := true;
        RemoveCacheItem(id, it);
        forall o | o in items && o != it
          ensures Shown(store.Holdings(), o.blocks) == Shown(h, o.blocks)
        {
          ShownStill(h, store.Holdings(), BlocksOf(it), o.blocks);
        }
      }
      Forget(key);
    }

    method Forget(key: Key)
      requires Valid() && Named(key) == {}
      modifies `latest
      ensures Valid() && latest == old(latest) - {key}
    {
      hide ItemOk, NoShared, Store.Valid;
      latest := latest - {key};
    }

    /** pin and unpin, as far as the item itself is concerned: no mark but that of the key's own item
        changes, and nothing else. */
    method SetPinned(key: Key, pinned: bool) returns (found: bool)
      requires Valid()
      modifies Named(key)`pinned
      ensures Valid() && found == Finds(key)
      ensures found ==> index[keyToId(key)].pinned == pinned
      ensures !found ==> unchanged(items)
    {
      hide ItemOk, NoShared, Store.Valid;
      var id := keyToId(key);
      if id !in index || index[id].key != key || index[id].released {
        return false;
      }
      index[id].pinned := pinned;
      return true;
    }

    /** An object all of whose blocks can be read answers every read that is not negative, and so every
        one that is exact, unless it slips from past the object. */
    lemma CompleteIsAnswerable(it: CacheItem, offset: uint64, size: uint64)
      requires Valid() && it in items && Complete(it) && store.z.slice > 0 && store.z.block > 0
      ensures CanAnswer(it, offset, size) <==> !Negative(store.z, it.size, offset, size)
      ensures Exact(store.z, it.size, offset, size) && (Slips(it.size, offset, size) ==> offset < it.size) ==>
              CanAnswer(it, offset, size) && Answer(store.z, it.value, offset, size) == Clip(it.value, offset, size)
    {
      hide ItemOk, NoShared, IndexOk, Store.Valid, Complete, Have, PartHad, Lower, Upper, Exact, Slips, Answer, Clip,
           Sizes.Aligned;
      ItemShape(it);
      AnswerExact(store.z, it.value, offset, size);
      if Exact(store.z, it.size, offset, size) && (Slips(it.size, offset, size) ==> offset < it.size) {
        ExactNotNegative(store.z, it.size, offset, size);
      }
      var z, n := store.z, ClippedSize(it.size, offset, size);
      if n > 0 {
        UpperInside(z, it.size, LastByte(offset, n));
        var lower, upper := Lower(z, offset), Upper(z, it.size, LastByte(offset, n));
        forall i: nat | lower <= upper && lower / z.block <= i <= upper / z.block
          ensures PartHad(z, it.value, Have(it), lower, upper, i)
        {
          PartOfComplete(it, lower, upper, i);
        }
      }
    }

    lemma PartOfComplete(it: CacheItem, lower: nat, upper: nat, i: nat)
      requires Valid() && it in items && Complete(it) && lower <= upper < |it.value| && store.z.slice > 0 &&
            store.z.block > 0
      requires lower / store.z.block <= i <= upper / store.z.block
      ensures PartHad(store.z, it.value, Have(it), lower, upper, i)
    {
      hide ItemOk, NoShared, IndexOk, Store.Valid, Store.StockOf, Store.Holdings, HasByte, PartFrom, PartTo,
           BlockContent;
      var from, to := PartFrom(store.z, lower, i), PartTo(store.z, upper, i);
      BlockRange(store.z, it.value, lower, upper, i, i * store.z.block, from, to);
      BlockExists(it, upper, i);
      assert FullIn(store.z, store.Holdings(), it.blocks[i]);
    }

    /** The round trip: what was just stored is there, and comes back byte for byte.  If the write fell
        short, what comes back is not the value only if nothing does. */
    method SetThenGet(key: Key, value: Buffer, pinned: bool, place: nat -> BlockLocation, ample: bool, io: bool,
                      promote: nat -> bool) returns (status: SetStatus, ok: bool, got: seq<byte>)
      requires Valid() && store.z.slice > 0
      requires value != [] ==> Narrow(store.z, |value| - 1) || Never(promote)
      modifies `index, `items, `latest, store`own, store`blocks
      modifies items`released, store.blocks`mem, store.blocks`disk, store.own.Keys
      ensures Valid()
      ensures status == Stored && ok && Sure(|value|, 0, |value|) ==> got <= value
      ensures status == Stored && ok && Sure(|value|, 0, |value|) ==>
              (got == value <==> value == [] || Narrow(store.z, |value| - 1))
      ensures value != [] && Narrow(store.z, |value| - 1) && (io || !store.medium.fallsShort) &&
              NoneEvicted(promote, ample) ==>
              (status == Stored ==> ok && got == value)
      ensures value != [] && Granted(ample) && Welcome(place, |value|, io) ==> status == Stored
    {
      hide ItemOk, NoShared, Store.Valid, Store.StockOf, Store.Holdings, Complete, CanAnswer, Answer, Narrow, Even;
      status := Set(key, value, true, pinned, false, place, ample, io);
      ok, got := false, [];
      if status == Stored {
        var it := index[keyToId(key)];
        ItemShape(it);
        if Narrow(store.z, |value| - 1) {
          NarrowIsEven(it);
          if io || !store.medium.fallsShort { WholeAnswers(it); }
        }
        ok, got := Get(key, true, promote, ample);
      }
    }

    lemma NarrowIsEven(it: CacheItem)
      requires Valid() && it in items && it.value != [] && store.z.slice > 0
      requires Narrow(store.z, |it.value| - 1)
      ensures Even(store.z, it.size, 0, it.size)
    {
      hide ItemOk, NoShared, Store.Valid, Store.StockOf, Store.Holdings, Even;
      ItemShape(it);
      store.z.OfMono(0, it.size - 1);
      store.z.Mono(store.z.SliceOf(0) + 1, store.z.SliceOf(it.size - 1) + 1);
      RangeAligned(store.z, it.size, 0, it.size);
    }

    lemma WholeAnswers(it: CacheItem)
      requires Valid() && it in items && Complete(it) && it.value != [] && store.z.slice > 0
      requires Narrow(store.z, |it.value| - 1)
      ensures CanAnswer(it, 0, it.size) && Even(store.z, it.size, 0, it.size)
    {
      hide ItemOk, NoShared, Store.Valid, Store.StockOf, Store.Holdings, Complete, CanAnswer, Answer, Even;
      ItemShape(it);
      NarrowIsEven(it);
      CompleteIsAnswerable(it, 0, it.size);
    }

    /** Removing one key takes nothing from another, even one with the same id: a read of it succeeds
        exactly when it would have, with the same bytes. */
    method RemoveThenRead(key: Key, other: Key, offset: uint64, size: uint64, promote: nat -> bool)
      returns (ok: bool, buf: seq<byte>)
      requires Valid() && store.z.slice > 0 && key != other && (EvenFor(other, offset, size) || Never(promote))
      modifies `index, `latest, store`own, items`released, store.blocks`mem, store.blocks`disk, store.own.Keys
      ensures Valid() && !Finds(key) && key !in latest
      ensures old(EvenFor(other, offset, size)) ==>
              (ok <==> old(Answers(other, offset, size)))
      ensures ok ==> other in old(latest)
      ensures ok && Sure(|old(latest)[other]|, offset, size) ==>
              buf == Answer(store.z, old(latest)[other], offset, size)
    {
      hide ItemOk, NoShared, Store.Valid, Store.StockOf, Store.Holdings, Have, Answerable, Answer, Even;
      var found := RemoveBeside(key, other);
      ok, buf := Read(other, offset, size, true, promote, true);
    }

    /** A removal, seen from another key: it finds what it found, and there is of it what there was. */
    method RemoveBeside(key: Key, other: Key) returns (found: bool)
      requires Valid() && key != other
      modifies `index, `latest, items`released, store.blocks`mem, store.blocks`disk
      ensures Valid() && Finds(other) == old(Finds(other))
      ensures Finds(other) ==> index[keyToId(other)] == old(index)[keyToId(other)]
      ensures old(Finds(other)) ==> Have(old(index)[keyToId(other)]) == old(Have(index[keyToId(other)]))
      ensures other in latest <==> other in old(latest)
      ensures other in latest ==> latest[other] == old(latest)[other]
      ensures !Finds(key) && key !in latest
    {
      hide ItemOk, NoShared, Store.Valid, Store.StockOf, Store.Holdings, Have;
      AllKnown();
      found := Remove(key);
    }

    /** Nor does setting one, where there is space for it, from a key with another id: whether the set
        succeeds or not. */
    method SetThenRead(key: Key, value: Buffer, overwrite: bool, pinned: bool, busy: bool,
                       place: nat -> BlockLocation, io: bool, other: Key, offset: uint64, size: uint64,
                       promote: nat -> bool) returns (status: SetStatus, ok: bool, buf: seq<byte>)
      requires Valid() && store.z.slice > 0 && keyToId(key) != keyToId(other)
      requires EvenFor(other, offset, size) || Never(promote)
      modifies `index, `items, `latest, store`own, store`blocks
      modifies items`released, store.blocks`mem, store.blocks`disk, store.own.Keys
      ensures Valid() && (status == Stored ==> Finds(key) && key in latest && latest[key] == value)
      ensures Granted(true) && Welcome(place, |value|, io) ==>
              (value != [] && !busy && (overwrite || keyToId(key) !in old(index)) ==> status == Stored)
      ensures old(EvenFor(other, offset, size)) ==>
              (ok <==> old(Answers(other, offset, size)))
      ensures ok ==> other in old(latest)
      ensures ok && Sure(|old(latest)[other]|, offset, size) ==>
              buf == Answer(store.z, old(latest)[other], offset, size)
    {
      hide ItemOk, NoShared, Store.Valid, Store.StockOf, Store.Holdings, Have, Answerable, Answer, Even;
      status := SetBeside(key, value, overwrite, pinned, busy, place, io, other);
      ok, buf := Read(other, offset, size, true, promote, true);
    }

    /** A set, seen from a key with another id: it finds what it found, and there is of it what there was. */
    method SetBeside(key: Key, value: Buffer, overwrite: bool, pinned: bool, busy: bool,
                     place: nat -> BlockLocation, io: bool, other: Key) returns (status: SetStatus)
      requires Valid() && keyToId(key) != keyToId(other)
      modifies `index, `items, `latest, store`own, store`blocks
      modifies items`released, store.blocks`mem, store.blocks`disk, store.own.Keys
      ensures Valid() && Finds(other) == old(Finds(other))
      ensures fresh(store.blocks - old(store.blocks)) && fresh(items - old(items)) &&
            fresh(store.own.Keys - old(store.own.Keys))
      ensures Finds(other) ==> index[keyToId(other)] == old(index)[keyToId(other)]
      ensures old(Finds(other)) ==> Have(old(index)[keyToId(other)]) == old(Have(index[keyToId(other)]))
      ensures other in latest <==> other in old(latest)
      ensures other in latest ==> latest[other] == old(latest)[other]
      ensures status == Stored ==> Finds(key) && key in latest && latest[key] == value
      ensures Granted(true) && Welcome(place, |value|, io) ==>
              (value != [] && !busy && (overwrite || keyToId(key) !in old(index)) ==> status == Stored)
    {
      hide ItemOk, NoShared, Store.Valid, Store.StockOf, Store.Holdings, Have, Complete;
      ghost var before := index;
      status := Set(key, value, overwrite, pinned, busy, place, true, io);
      WithoutAgree(index, before, keyToId(key), keyToId(other));
    }

    // ----- Eviction of what is stored ------------------------------------------------------------------

    /** Where there is a disk layer and the policy flushes, or the item is pinned, a block given back by
        memory leaves its item complete, if a disk block is granted and no write falls short. */
    method EvictStored(id: nat, i: nat, word: Admission)
      requires Valid() && id in index && i < |index[id].blocks| && Complete(index[id])
      requires hasDiskLayer && (index[id].pinned || word == FLUSH) && maxRetry > 0 && !store.medium.fallsShort
      modifies `index, store`own, items`released, store.blocks`mem, store.blocks`disk, store.own.Keys
      ensures Valid() && index == old(index) && Complete(index[id]) && index[id].blocks[i].mem == null
      ensures fresh(store.own.Keys - old(store.own.Keys)) && old(store.own.Keys) <= store.own.Keys
      ensures Mems() - {index[id].blocks[i]} == old(Mems()) - {index[id].blocks[i]}
    {
      hide ItemOk, NoShared, IndexOk, Store.Valid, Store.StockOf, Store.Holdings, KeepsOnDisk, NothingLost, WholeOnDisk,
           Settled, Listing, Continuous;
      IndexKnows(id);
      var it := index[id];
      BlockOfItem(it, i);
      ghost var b, before := it.blocks[i], store.Holdings();
      FullAt(it, i);
      store.SizesOf(b);
      EvictMemBlock(id, i, word, true, true);
      store.SizesOf(b);
      FullAfter(b);
      AllFullBut(store.z, before, store.Holdings(), it.blocks, i);
    }

    /** What was just stored in ample space and is then taken out of memory, block by block, comes back
        byte for byte. */
    method SetThenEvictThenGet(key: Key, value: Buffer, pinned: bool, place: nat -> BlockLocation)
      returns (ok: bool, got: seq<byte>)
      requires Valid() && store.z.slice > 0 && hasDiskLayer && maxRetry > 0 && !store.medium.fallsShort
      requires value != [] && Welcome(place, |value|, true) && Narrow(store.z, |value| - 1)
      modifies `index, `items, `latest, store`own, store`blocks
      modifies items`released, store.blocks`mem, store.blocks`disk, store.own.Keys
      ensures Valid() && ok && got == value
      ensures keyToId(key) in index && forall b :: b in index[keyToId(key)].blocks ==> b.mem == null
    {
      hide ItemOk, NoShared, Store.Valid, Store.StockOf, Store.Holdings, Complete, CanAnswer, Answer, Narrow, Even;
      StoreWhole(key, value, pinned, place);
      EvictAll(keyToId(key));
      ok, got := GetComplete(key, true);
    }

    /** A complete item whose last slice ends within 32 bits is got in full, if the system does as told. */
    method GetComplete(key: Key, ample: bool) returns (ok: bool, got: seq<byte>)
      requires Valid() && Finds(key) && Complete(index[keyToId(key)]) && store.z.slice > 0
      requires key in latest && latest[key] != [] && index[keyToId(key)].value == latest[key]
      requires Narrow(store.z, |latest[key]| - 1)
      modifies `index, store`own, items`released, store.blocks`mem, store.blocks`disk, store.own.Keys
      ensures Valid() && ok && got == latest[key] && latest == old(latest)
      ensures unchanged(this, store, old(items), old(store.blocks), old(store.own.Keys))
    {
      hide ItemOk, NoShared, Store.Valid, Store.StockOf, Store.Holdings, Complete, CanAnswer, Answer, Narrow, Even;
      ItemShape(index[keyToId(key)]);
      WholeAnswers(index[keyToId(key)]);
      ok, got := Get(key, true, _ => false, ample);
    }

    method StoreWhole(key: Key, value: Buffer, pinned: bool, place: nat -> BlockLocation)
      requires Valid() && maxRetry > 0 && value != [] && Welcome(place, |value|, true)
      modifies `index, `items, `latest, store`own, store`blocks
      modifies items`released, store.blocks`mem, store.blocks`disk, store.own.Keys
      ensures Valid() && Finds(key) && index[keyToId(key)].value == value && Complete(index[keyToId(key)])
      ensures fresh(store.blocks - old(store.blocks)) && fresh(items - old(items)) &&
            fresh(store.own.Keys - old(store.own.Keys))
      ensures key in latest && latest[key] == value
    {
      hide ItemOk, NoShared, Store.Valid, Store.StockOf, Store.Holdings, Complete, Welcome, Tolerated;
      var status := Set(key, value, true, pinned, false, place, true, true);
    }

    method EvictAll(id: nat)
      requires Valid() && id in index && Complete(index[id])
      requires hasDiskLayer && maxRetry > 0 && !store.medium.fallsShort
      modifies `index, store`own, items`released, store.blocks`mem, store.blocks`disk, store.own.Keys
      ensures Valid() && index == old(index) && Complete(index[id])
      ensures forall b :: b in index[id].blocks ==> b.mem == null
      ensures fresh(store.own.Keys - old(store.own.Keys)) && old(store.own.Keys) <= store.own.Keys
    {
      hide ItemOk, NoShared, IndexOk, Store.Valid, Store.StockOf, Store.Holdings, Complete;
      IndexKnows(id);
      BlocksKnown(index[id]);
      for i := 0 to |index[id].blocks|
        invariant Valid() && index == old(index) && Complete(index[id])
        invariant forall j :: 0 <= j < i ==> index[id].blocks[j].mem == null
        invariant fresh(store.own.Keys - old(store.own.Keys)) && old(store.own.Keys) <= store.own.Keys
      {
        ghost var mems := Mems();
        EvictStored(id, i, FLUSH);
        MemoryElsewhere(index[id].blocks, mems, i);
      }
    }

    lemma MemoryElsewhere(bs: seq<BlockItem>, before: map<BlockItem, MemBlockItem?>, i: nat)
      requires i < |bs| && Mems() - {bs[i]} == before - {bs[i]} && forall b :: b in bs ==> b in store.blocks
      requires before.Keys == store.blocks && bs[i].mem == null
      ensures forall j :: 0 <= j < |bs| && before[bs[j]] == null ==> bs[j].mem == null
    {
      forall j | 0 <= j < |bs| && before[bs[j]] == null
        ensures bs[j].mem == null
      {
        assert bs[j] in bs;
        if bs[j] != bs[i] { assert (Mems() - {bs[i]})[bs[j]] == (before - {bs[i]})[bs[j]]; }
      }
    }

    lemma FullAt(it: CacheItem, i: nat)
      requires Valid() && it in items && Complete(it) && i < |it.blocks|
      ensures it.blocks[i].mem != null && it.blocks[i].disk == null ==> WholeInMemory(it.blocks[i])
      ensures it.blocks[i].mem == null ==> store.Full(it.blocks[i])
      ensures forall j, k :: 0 <= j < k < |it.blocks| ==> it.blocks[j] != it.blocks[k]
    {
      hide NoShared, IndexOk, Store.Valid, Store.StockOf, Store.Holdings, Had, Listing, Continuous;
      var b := it.blocks[i];
      store.HoldingOf(b);
      store.SizesOf(b);
      store.SlicesOf(b);
      assert FullIn(store.z, store.Holdings(), b);
    }

    /** On a medium where no transfer falls short, a block that is on disk is there in full. */
    lemma FullAfter(b: BlockItem)
      requires Valid() && b in store.blocks && (b.disk != null || store.Full(b)) && !store.medium.fallsShort
      ensures FullIn(store.z, store.Holdings(), b)
    {
      hide ItemOk, NoShared, IndexOk, Store.Valid, Store.StockOf, Store.Holdings, Settled;
      store.HoldingOf(b);
      if b.disk != null { store.FullOnDisk(b); }
    }
  }

  lemma AllFullBut(z: Sizes, before: Holding, after: Holding, bs: seq<BlockItem>, i: nat)
    requires i < |bs| && after - {bs[i]} == before - {bs[i]} && AllFullIn(z, before, bs, |bs|)
    requires forall j, k :: 0 <= j < k < |bs| ==> bs[j] != bs[k]
    requires FullIn(z, after, bs[i])
    ensures AllFullIn(z, after, bs, |bs|)
  {
    hide FullIn;
    forall j | 0 <= j < |bs| && j != i
      ensures FullIn(z, after, bs[j])
    {
      FullStill(z, before, after, bs[i], bs[j]);
    }
  }

  /** The blocks of the items found under any of the ids. */
  ghost function BlocksUnder(ix: map<nat, CacheItem>, ids: seq<nat>): set<BlockItem> {
    set id, b | id in ix && id in ids && b in ix[id].blocks :: b
  }

  /** Some of the blocks have something there. */
  ghost predicate AnyIn(mems: map<BlockItem, MemBlockItem?>, bs: seq<BlockItem>) {
    exists b :: b in bs && b in mems && mems[b] != null
  }

  ghost function Without(disks: map<BlockItem, DiskBlockItem?>, bs: set<BlockItem>): map<BlockItem, DiskBlockItem?> {
    map b | b in disks :: if b in bs then null else disks[b]
  }

  lemma NoneUnder(ix: map<nat, CacheItem>, disks: map<BlockItem, DiskBlockItem?>)
    ensures Without(disks, BlocksUnder(ix, [])) == disks
  {}

  lemma OneMoreUnder(ix: map<nat, CacheItem>, ids: seq<nat>, id: nat, disks: map<BlockItem, DiskBlockItem?>)
    requires id in ix
    ensures Without(Without(disks, BlocksUnder(ix, ids)), StarCacheImpl.BlocksOf(ix[id]))
         == Without(disks, BlocksUnder(ix, ids + [id]))
  {
    assert forall i :: i in ids + [id] <==> i in ids || i == id;
    assert BlocksUnder(ix, ids + [id]) == BlocksUnder(ix, ids) + set b | b in ix[id].blocks;
  }

  /** The index has only lost ids, and memory only blocks; what the index lost has nothing in memory. */
  ghost predicate Shrunk(ix0: map<nat, CacheItem>, mems0: map<BlockItem, MemBlockItem?>, ix: map<nat, CacheItem>,
                         mems: map<BlockItem, MemBlockItem?>) {
    && ix.Items <= ix0.Items && mems.Keys == mems0.Keys
    && (forall b :: b in mems0 ==> mems[b] == mems0[b] || mems[b] == null)
    && (forall id :: id in ix0 && id !in ix ==> !AnyIn(mems, ix0[id].blocks))
  }

  lemma ShrunkItself(ix: map<nat, CacheItem>, mems: map<BlockItem, MemBlockItem?>)
    ensures Shrunk(ix, mems, ix, mems)
  {}

  lemma ShrunkThrough(ix0: map<nat, CacheItem>, mems0: map<BlockItem, MemBlockItem?>, ix1: map<nat, CacheItem>,
                      mems1: map<BlockItem, MemBlockItem?>, ix2: map<nat, CacheItem>,
                      mems2: map<BlockItem, MemBlockItem?>)
    requires Shrunk(ix0, mems0, ix1, mems1) && Shrunk(ix1, mems1, ix2, mems2)
    ensures Shrunk(ix0, mems0, ix2, mems2)
  {
    forall id | id in ix0 && id !in ix2
      ensures !AnyIn(mems2, ix0[id].blocks)
    {
      if id in ix1 { FoundBefore(ix1, ix0, id); } else { assert !AnyIn(mems1, ix0[id].blocks); }
    }
  }

  lemma ShrunkFrom(ix0: map<nat, CacheItem>, mems0: map<BlockItem, MemBlockItem?>, ix: map<nat, CacheItem>,
                   mems: map<BlockItem, MemBlockItem?>, id: nat)
    requires Shrunk(ix0, mems0, ix, mems) && id in ix
    ensures id in ix0 && ix[id] == ix0[id]
  {
    FoundBefore(ix, ix0, id);
  }

  /** One more block leaves memory, */
  lemma ShrunkDrop(ix0: map<nat, CacheItem>, mems0: map<BlockItem, MemBlockItem?>, ix: map<nat, CacheItem>,
                   mems: map<BlockItem, MemBlockItem?>, mems': map<BlockItem, MemBlockItem?>, b: BlockItem)
    requires Shrunk(ix0, mems0, ix, mems) && mems'.Keys == mems.Keys && mems' - {b} == mems - {b}
    requires b in mems' && mems'[b] == null
    ensures Shrunk(ix0, mems0, ix, mems')
  {
    forall o | o in mems && o != b
      ensures mems'[o] == mems[o]
    {
      assert (mems' - {b})[o] == (mems - {b})[o];
    }
  }

  /** and its item the index, if that was the last of it. */
  lemma ShrunkClear(ix: map<nat, CacheItem>, mems: map<BlockItem, MemBlockItem?>, ix': map<nat, CacheItem>,
                    mems': map<BlockItem, MemBlockItem?>, id: nat, b: BlockItem)
    requires mems'.Keys == mems.Keys && mems' - {b} == mems - {b} && b in mems' && mems'[b] == null && id in ix
    requires ix' == ix || (ix' == ix - {id} && !AnyIn(mems', ix[id].blocks))
    ensures Shrunk(ix, mems, ix', mems')
  {
    ShrunkItself(ix, mems);
    ShrunkDrop(ix, mems, ix, mems, mems', b);
    WithoutSmaller(ix, id);
  }

  /** The block a key names is not in memory. */
  ghost predicate OutOf(ix: map<nat, CacheItem>, mems: map<BlockItem, MemBlockItem?>, key: (nat, nat)) {
    key.0 in ix && key.1 < |ix[key.0].blocks| && ix[key.0].blocks[key.1] in mems ==>
      mems[ix[key.0].blocks[key.1]] == null
  }

  lemma OutStays(ix: map<nat, CacheItem>, ix1: map<nat, CacheItem>, mems1: map<BlockItem, MemBlockItem?>,
                 ix2: map<nat, CacheItem>, mems2: map<BlockItem, MemBlockItem?>, key: (nat, nat))
    requires Shrunk(ix1, mems1, ix2, mems2) && OutOf(ix, mems1, key)
    ensures OutOf(ix, mems2, key)
  {}

  ghost predicate AllOut(ix: map<nat, CacheItem>, mems: map<BlockItem, MemBlockItem?>, keys: seq<(nat, nat)>,
                         due: set<nat>, n: nat) {
    forall k: nat :: k < n <= |keys| && k in due ==> OutOf(ix, mems, keys[k])
  }

  lemma OutAgain(ix: map<nat, CacheItem>, ix1: map<nat, CacheItem>, mems1: map<BlockItem, MemBlockItem?>,
                 ix2: map<nat, CacheItem>, mems2: map<BlockItem, MemBlockItem?>, keys: seq<(nat, nat)>,
                 due: set<nat>, n: nat)
    requires Shrunk(ix1, mems1, ix2, mems2) && n < |keys| && AllOut(ix, mems1, keys, due, n)
    requires n in due ==> OutOf(ix, mems2, keys[n])
    ensures AllOut(ix, mems2, keys, due, n + 1)
  {
    hide Shrunk, OutOf;
    forall k: nat | k < n && k in due
      ensures OutOf(ix, mems2, keys[k])
    {
      OutStays(ix, ix1, mems1, ix2, mems2, keys[k]);
    }
  }

  /** A key is done with once its block, if the index still knew it, is out of memory. */
  lemma OutNow(ix0: map<nat, CacheItem>, mems0: map<BlockItem, MemBlockItem?>, ix: map<nat, CacheItem>,
               mems: map<BlockItem, MemBlockItem?>, ix': map<nat, CacheItem>, mems': map<BlockItem, MemBlockItem?>,
               key: (nat, nat))
    requires Shrunk(ix0, mems0, ix, mems) && Shrunk(ix, mems, ix', mems')
    ensures key.0 !in ix || OutOf(ix, mems', key) ==> OutOf(ix0, mems', key)
    ensures key.0 in ix ==> key.0 in ix0 && ix[key.0] == ix0[key.0]
  {
    if key.0 in ix { FoundBefore(ix, ix0, key.0); }
    if key.0 !in ix && key.0 in ix0 && key.1 < |ix0[key.0].blocks| {
      assert ix0[key.0].blocks[key.1] in ix0[key.0].blocks;
    }
  }

  lemma FoundBefore(ix: map<nat, CacheItem>, ix0: map<nat, CacheItem>, id: nat)
    requires ix.Items <= ix0.Items && id in ix
    ensures id in ix0 && ix[id] == ix0[id]
  {
    assert (id, ix[id]) in ix.Items;
  }

  ghost predicate Never(promote: nat -> bool) {
    forall i: nat :: !promote(i)
  }

  ghost predicate Always(promote: nat -> bool) {
    forall i: nat :: promote(i)
  }

  /** The first n blocks have a place, and what is to go to disk is written there. */
  ghost predicate Placed(place: nat -> BlockLocation, n: nat, io: bool) {
    forall i: nat :: i < n ==> place(i) == MEM || (place(i) == DISK && io)
  }

  ghost predicate NoneRejected(place: nat -> BlockLocation, n: nat) {
    forall i: nat :: i < n ==> place(i) != NONE
  }

  /** The first i of n blocks have been written, or the last of those tried could not be. */
  ghost predicate Going(place: nat -> BlockLocation, n: nat, i: nat, granted: bool, io: bool, ok: bool) {
    (granted && Placed(place, n, io) ==> ok) && (ok ==> NoneRejected(place, i))
  }

  lemma GoingFirst(z: Sizes, h: Holding, bs: seq<BlockItem>, place: nat -> BlockLocation, granted: bool, io: bool)
    ensures Going(place, |bs|, 0, granted, io, true) && AllFullIn(z, h, bs, 0)
  {}

  lemma GoesOn(place: nat -> BlockLocation, n: nat, i: nat, granted: bool, io: bool, ok: bool)
    requires Going(place, n, i, granted, io, true) && i < n && (ok ==> place(i) != NONE)
    requires granted && (place(i) == MEM || (place(i) == DISK && io)) ==> ok
    ensures Going(place, n, if ok then i + 1 else i, granted, io, ok)
  {}

  lemma GoingDone(place: nat -> BlockLocation, n: nat, i: nat, granted: bool, io: bool, ok: bool)
    requires Going(place, n, i, granted, io, ok)
    ensures (granted && Placed(place, n, io) ==> ok) && (ok ==> NoneRejected(place, i))
  {}

  lemma ShownGrows(before: Holding, after: Holding, bs: seq<BlockItem>)
    requires HeldOn(before, after) && forall b :: b in bs ==> b in before
    ensures AllNoLess(Shown(before, bs), Shown(after, bs))
  {
    hide NoLess;
    forall i | 0 <= i < |bs|
      ensures NoLess(Shown(before, bs)[i], Shown(after, bs)[i])
    {
      assert bs[i] in bs;
    }
  }

  lemma ExtendedItself(h: Holding)
    ensures Extended(h, h)
  {}

  /** The first n of the blocks can be had in full. */
  ghost predicate AllFullIn(z: Sizes, h: Holding, bs: seq<BlockItem>, n: nat)
    requires n <= |bs|
  {
    forall i :: 0 <= i < n ==> FullIn(z, h, bs[i])
  }

  lemma AllFullStill(z: Sizes, before: Holding, after: Holding, bs: seq<BlockItem>, i: nat)
    requires i < |bs| && after - {bs[i]} == before - {bs[i]} && AllFullIn(z, before, bs, i) && FullIn(z, after, bs[i])
    requires forall j, k :: 0 <= j < k < |bs| ==> bs[j] != bs[k]
    ensures AllFullIn(z, after, bs, i + 1)
  {
    hide FullIn;
    forall j | 0 <= j < i
      ensures FullIn(z, after, bs[j])
    {
      FullStill(z, before, after, bs[i], bs[j]);
    }
  }

  lemma AllFullMore(z: Sizes, before: Holding, after: Holding, bs: seq<BlockItem>)
    requires Extended(before, after) && AllFullIn(z, before, bs, |bs|)
    ensures AllFullIn(z, after, bs, |bs|)
  {
    hide Settled;
  }

  method PutWhole(pending: Store, b: BlockItem, segment: Segment)
    requires pending.Valid() && b in pending.blocks
    requires Fits(pending.z, b.content, segment) && segment.offset == 0 && segment.size == |b.content|
    modifies pending`own, b`mem
    ensures pending.Valid() && fresh(pending.own.Keys - old(pending.own.Keys)) && pending.Full(b)
    ensures b.mem != null && b.mem.dirty && Continuous(Listing(b.mem.slices[..]), 0) == |b.content| == b.blockSize
    ensures pending.Holdings() - {b} == old(pending.Holdings()) - {b}
  {
    hide Store.Valid, Store.StockOf, Store.Holdings, Store.Full, Fits, Written, Listing, Continuous, Undisturbed;
    NoneHeld(pending, b);
    WholeSegment(pending.z, b.content, seq(pending.z.count, _ => None), segment);
    pending.PutInNewMem(b, [segment], true);
    pending.MemHeld(b);
    pending.FullInMemory(b);
  }

  lemma NoneHeld(pending: Store, b: BlockItem)
    requires pending.Valid() && b in pending.blocks
    ensures Held(pending.z, b.content, seq(pending.z.count, _ => None)) && |b.content| == b.blockSize
  {}

  /** A read of the range has come to its i-th block, and has the bytes before it, if it is sure. */
  ghost predicate ReadUpTo(z: Sizes, value: seq<byte>, lower: nat, upper: nat, i: nat, cursor: nat, sure: bool,
                           buf: seq<byte>)
    requires z.block > 0 && upper < |value|
  {
    && lower / z.block <= i <= upper / z.block + 1
    && cursor == (if i > upper / z.block then upper + 1 else if i == lower / z.block then lower else i * z.block)
    && lower <= cursor <= upper + 1 && (sure ==> buf == value[lower..cursor])
  }

  lemma NothingRead(z: Sizes, value: seq<byte>, stocks: seq<Stock>, lower: nat, upper: nat, exactly: bool,
                    keeps: bool, sure: bool)
    requires z.slice > 0 && z.block > 0 && lower <= upper < |value|
    ensures z.BlockOf(lower) <= z.BlockOf(upper)
    ensures ReadUpTo(z, value, lower, upper, z.BlockOf(lower), lower, sure, [])
    ensures PartsRead(z, value, stocks, stocks, lower, upper, z.BlockOf(lower), exactly, keeps, true)
  {
    hide PartsRead;
    DivMono(lower, upper, z.block);
    NoPartsRead(z, value, stocks, lower, upper, exactly, keeps);
  }

  lemma AllRead(z: Sizes, value: seq<byte>, lower: nat, upper: nat, cursor: nat, sure: bool, buf: seq<byte>)
    requires z.block > 0 && upper < |value| && ReadUpTo(z, value, lower, upper, upper / z.block + 1, cursor, sure, buf)
    ensures lower <= upper + 1 && (sure ==> buf == value[lower..upper + 1])
  {}

  lemma AlikeSome(a: seq<Segment>, b: seq<Segment>)
    requires Alike(a, b) && a != []
    ensures b != []
  {}

  /** Nothing was read from disk: it was all in memory. */
  lemma AllSourced(z: Sizes, content: seq<byte>, st: Stock, offset: nat, size: nat)
    requires z.slice > 0 && offset + size <= |content| && Sourced(z, st.ss, [], offset, offset + size)
    ensures Had(z, content, MemoryOnly(st), offset, size)
  {}

  lemma SameButMore(before: Holding, after: Holding, b: BlockItem, changed: set<BlockItem>)
    requires after - {b} == before - {b} && b in changed
    ensures after - changed == before - changed
  {
    assert after - {b} - changed == after - changed && before - {b} - changed == before - changed;
  }

  lemma WrittenNoLess(z: Sizes, before: Stock, after: Stock, segments: seq<Segment>)
    requires z.slice > 0 && after.data == before.data && after.ss == Written(z, before.ss, segments)
    ensures NoLess(before, after)
  {
    forall j | 0 <= j < |before.ss| && before.ss[j].Some?
      ensures after.ss[j].Some?
    {
      WrittenGrows(z, before.ss, segments, j);
    }
  }

  /** Segments of the same bytes fit alike. */
  lemma SameFit(z: Sizes, content: seq<byte>, a: Segment, b: Segment)
    requires z.Valid() && Fits(z, content, a)
    requires a.offset == b.offset && a.size == b.size && a.buf == b.buf
    ensures Fits(z, content, b)
  {}

  lemma WithoutStays(ix: map<nat, CacheItem>, before: map<nat, CacheItem>, ix0: map<nat, CacheItem>, id: nat, ok: bool)
    requires before == ix0 - {id}
    requires if ok then (ix - {id}).Items <= before.Items else ix.Items <= before.Items
    ensures (ix - {id}).Items <= ix0.Items && (!ok ==> id !in ix)
  {
    WithoutSmaller(ix0, id);
    WithoutSmaller(ix, id);
    if !ok { KeysFollow(ix, before); }
  }

  lemma WithoutAgree(ix: map<nat, CacheItem>, ix0: map<nat, CacheItem>, id: nat, other: nat)
    requires ix - {id} == ix0 - {id} && other != id
    ensures (other in ix <==> other in ix0) && (other in ix ==> ix[other] == ix0[other])
  {
    assert (other in ix <==> other in ix - {id}) && (other in ix0 <==> other in ix0 - {id});
    if other in ix { assert (ix - {id})[other] == (ix0 - {id})[other]; }
  }

  lemma KeysFollow(ix: map<nat, CacheItem>, ix0: map<nat, CacheItem>)
    requires ix.Items <= ix0.Items
    ensures ix.Keys <= ix0.Keys
  {
    forall id | id in ix
      ensures id in ix0
    {
      assert (id, ix[id]) in ix.Items;
    }
  }

  lemma WithoutSmaller(ix: map<nat, CacheItem>, id: nat)
    ensures (ix - {id}).Items <= ix.Items
  {
    forall e | e in (ix - {id}).Items
      ensures e in ix.Items
    {
      assert ix[e.0] == e.1;
    }
  }

  lemma KnownGrows(z: Sizes, known: set<BlockItem>, known': set<BlockItem>, it: CacheItem)
    requires ItemOk(z, known, it) && known <= known'
    ensures ItemOk(z, known', it)
  {}

  lemma KnownBlocks(z: Sizes, known: set<BlockItem>, it: CacheItem)
    requires ItemOk(z, known, it)
    ensures forall i :: 0 <= i < |it.blocks| ==> it.blocks[i] in known
  {}

  lemma BlocksDiffer(z: Sizes, known: set<BlockItem>, it: CacheItem)
    requires ItemOk(z, known, it)
    ensures forall i, j :: 0 <= i < j < |it.blocks| ==> it.blocks[i] != it.blocks[j]
  {}

  lemma PartOf(z: Sizes, known: set<BlockItem>, it: CacheItem, i: nat)
    requires ItemOk(z, known, it) && i < |it.blocks|
    ensures it.blocks[i] in known && i * z.block < |it.value| && it.blocks[i].content == BlockContent(z, it.value, i)
  {}

  lemma ItemMade(z: Sizes, known: set<BlockItem>, it: CacheItem)
    requires z.Valid() && 0 < |it.value| == it.size && |it.blocks| == BlockCount(z, it.size)
    requires forall k :: 0 <= k < |it.blocks| ==> BlockMade(z, known, it.blocks[k], it.value, k)
    requires forall i, j :: 0 <= i < j < |it.blocks| ==> it.blocks[i] != it.blocks[j]
    ensures ItemOk(z, known, it)
  {
    forall k | 0 <= k < |it.blocks|
      ensures it.blocks[k] in known && k * z.block < |it.value| && it.blocks[k].content == BlockContent(z, it.value, k)
    {
      assert BlockMade(z, known, it.blocks[k], it.value, k);
    }
  }

  /** A segment with the whole content is entered under every slice of it. */
  lemma WholeSegment(z: Sizes, content: seq<byte>, ss: Slices, segment: Segment)
    requires Held(z, content, ss) && Fits(z, content, segment) && forall j :: 0 <= j < |ss| ==> ss[j] == None
    requires segment.offset == 0 && segment.size == |content|
    ensures forall j :: 0 <= j < |ss| && z.SliceLower(j) < |content| ==> Written(z, ss, [segment])[j].Some?
    ensures Undisturbed(z, Written(z, ss, [segment]))
  {
    assert Written(z, ss, [segment][..0]) == ss;
    forall j | 0 <= j < |ss| && z.SliceLower(j) < |content|
      ensures Written(z, ss, [segment])[j].Some?
    {
      SpanStarts(z, content, segment, j);
    }
  }
}
