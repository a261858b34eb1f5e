/** Cache items: the blocks an object is split into, and the store of everything attached to them. */
module CacheItems {
  import opened Common
  import opened Segments
  import opened MemCache
  import opened DiskCache

  type Key = string

  /** The bytes of block i of a value. */
  function BlockContent(z: Sizes, value: seq<byte>, i: nat): seq<byte>
    requires i * z.block <= |value|
  {
    value[i * z.block..if (i + 1) * z.block <= |value| then (i + 1) * z.block else |value|]
  }

  function BlockCount(z: Sizes, size: nat): nat
    requires z.block > 0
  {
    if size == 0 then 0 else (size - 1) / z.block + 1
  }

  lemma BlockBounds(z: Sizes, p: nat)
    requires z.block > 0
    ensures (p / z.block) * z.block <= p < (p / z.block + 1) * z.block
  {
    Distribute(z.block, p / z.block, 1);
  }

  /** The block is the k-th part of the value. */
  ghost predicate BlockMade(z: Sizes, known: set<BlockItem>, b: BlockItem, value: seq<byte>, k: nat) {
    b in known && k * z.block < |value| && b.content == BlockContent(z, value, k)
  }

  lemma BlockStarts(z: Sizes, value: seq<byte>, k: nat)
    requires z.Valid() && value != [] && k < BlockCount(z, |value|)
    ensures k * z.block < |value| && 0 < |BlockContent(z, value, k)| <= z.block
  {
    BlockBounds(z, |value| - 1);
    MulMono(z.block, k, (|value| - 1) / z.block);
    Distribute(z.block, k, 1);
  }

  /** BlockItem: at most one memory block and one disk block.  `content` is what it stands for. */
  class BlockItem {
    ghost const content: seq<byte>
    const blockSize: nat
    var mem: MemBlockItem?
    var disk: DiskBlockItem?

    constructor (blockSize: nat, ghost content: seq<byte>)
      requires blockSize == |content|
      ensures this.content == content && this.blockSize == blockSize && mem == null && disk == null
    {
      this.content, this.blockSize := content, blockSize;
      mem, disk := null, null;
    }
  }

  // ----- What there is of a block --------------------------------------------------------------------

  /** The segments in a block's slices in memory, and its bytes on disk, if it has a disk block. */
  datatype Stock = Stock(ss: Slices, data: Option<seq<byte>>)

  ghost predicate InSlices(z: Sizes, ss: Slices, p: nat)
    requires z.slice > 0
  {
    z.SliceOf(p) < |ss| && ss[z.SliceOf(p)].Some?
  }

  ghost predicate OnDisk(content: seq<byte>, data: Option<seq<byte>>, p: nat)
    requires p < |content|
  {
    data.Some? && p < |data.value| && data.value[p] == content[p]
  }

  /** Byte p can be had: its slice is in memory, or the disk block has it right. */
  ghost predicate HasByte(z: Sizes, content: seq<byte>, st: Stock, p: nat)
    requires z.slice > 0 && p < |content|
  {
    InSlices(z, st.ss, p) || OnDisk(content, st.data, p)
  }

  /** Every byte of the range can be had. */
  ghost predicate Had(z: Sizes, content: seq<byte>, st: Stock, offset: int, size: int)
    requires z.slice > 0
  {
    && 0 <= offset && 0 <= size && offset + size <= |content|
    && forall p: nat :: offset <= p < offset + size ==> HasByte(z, content, st, p)
  }

  /** The disk block has all of the content. */
  ghost predicate WholeOnDisk(content: seq<byte>, data: Option<seq<byte>>) {
    forall p: nat :: p < |content| ==> OnDisk(content, data, p)
  }

  /** The disk block has all of the content that the segments have. */
  ghost predicate ListedOnDisk(content: seq<byte>, data: Option<seq<byte>>, segs: seq<Segment>) {
    forall p: nat :: p < |content| && ListedBelow(segs, |segs|, p) ==> OnDisk(content, data, p)
  }

  /** The disk has still got what it had of the content. */
  ghost predicate KeepsOnDisk(content: seq<byte>, before: Option<seq<byte>>, after: Option<seq<byte>>) {
    forall p: nat :: p < |content| && OnDisk(content, before, p) ==> OnDisk(content, after, p)
  }

  /** Flushed over the disk block there is, memory's copy may go. */
  lemma FlushedOver(z: Sizes, content: seq<byte>, before: Stock, after: Stock)
    requires Held(z, content, before.ss) && KeepsOnDisk(content, before.data, after.data)
    requires ListedOnDisk(content, after.data, Listing(before.ss))
    ensures NothingLost(z, content, before, after)
  {
    hide Listing, Held, OnDisk;
    HeldShape(z, content, before.ss);
    forall p: nat | p < |content| && HasByte(z, content, before, p)
      ensures OnDisk(content, after.data, p)
    {
      if !OnDisk(content, before.data, p) {
        SliceInBlock(z, p);
        assert InMemory(z, content, before.ss, p);
        ListingHasByte(z, content, before.ss, p);
        assert ListedBelow(Listing(before.ss), |Listing(before.ss)|, p);
      }
    }
  }

  lemma WholeLosesNothing(z: Sizes, content: seq<byte>, before: Stock, after: Stock)
    requires z.slice > 0 && WholeOnDisk(content, after.data)
    ensures NothingLost(z, content, before, after)
  {}

  /** What there is of a block in memory alone. */
  function MemoryOnly(st: Stock): Stock {
    Stock(st.ss, None)
  }

  /** Every byte that could be had still can. */
  ghost predicate NothingLost(z: Sizes, content: seq<byte>, before: Stock, after: Stock) {
    z.slice > 0 && forall p: nat :: p < |content| && HasByte(z, content, before, p) ==> HasByte(z, content, after, p)
  }

  /** The disk has what it had, and no slice has left memory. */
  ghost predicate NoLess(before: Stock, after: Stock) {
    && after.data == before.data && |after.ss| == |before.ss|
    && forall j :: 0 <= j < |before.ss| && before.ss[j].Some? ==> after.ss[j].Some?
  }

  lemma NoLessThrough(a: Stock, b: Stock, c: Stock)
    requires NoLess(a, b) && NoLess(b, c)
    ensures NoLess(a, c)
  {}

  lemma HadStill(z: Sizes, content: seq<byte>, before: Stock, after: Stock, offset: int, size: int)
    requires z.slice > 0 && NoLess(before, after) && Had(z, content, before, offset, size)
    ensures Had(z, content, after, offset, size)
  {
    forall p: nat | offset <= p < offset + size
      ensures HasByte(z, content, after, p)
    {
      assert HasByte(z, content, before, p);
    }
  }

  /** Which block each memory or disk block, and each of their buffers, is or was attached to. */
  type Owner = map<object, BlockItem>

  ghost function Parts(own: Owner, b: BlockItem): set<object> {
    set o | o in own.Keys && own[o] == b
  }

  ghost predicate MemOk(z: Sizes, b: BlockItem, own: Owner)
    reads b`mem, Parts(own, b)
  {
    b.mem != null ==>
      && b.mem in Parts(own, b) && b.mem.slices in Parts(own, b)
      && b.mem.z == z && b.mem.Valid(b.content)
  }

  ghost predicate DiskOk(z: Sizes, medium: Medium, b: BlockItem, own: Owner)
    reads b`disk, Parts(own, b)
  {
    b.disk != null ==>
      && b.disk in Parts(own, b) && b.disk.data in Parts(own, b) && b.disk.checksums in Parts(own, b)
      && b.disk.z == z && b.disk.medium == medium && b.disk.Valid(b.content)
  }

  ghost predicate SizeOk(z: Sizes, b: BlockItem) {
    z.Valid() && 0 < |b.content| == b.blockSize <= z.block
  }

  /** Memory holds only bytes of the content; an attached disk block has its checksums, and holds all of
      it unless a write fell short. */
  ghost predicate BlockOk(z: Sizes, medium: Medium, b: BlockItem, own: Owner)
    reads b, Parts(own, b)
  {
    && b !in own && SizeOk(z, b)
    && MemOk(z, b, own)
    && DiskOk(z, medium, b, own)
  }

  ghost predicate AllOk(z: Sizes, medium: Medium, blocks: set<BlockItem>, own: Owner)
    reads blocks, own.Keys
  {
    forall b :: b in blocks ==> BlockOk(z, medium, b, own)
  }

  /** Giving a block more parts takes nothing away from any block. */
  lemma OwnerGrows(z: Sizes, medium: Medium, blocks: set<BlockItem>, own: Owner, own': Owner)
    requires AllOk(z, medium, blocks, own)
    requires forall o :: o in own ==> o in own' && own'[o] == own[o]
    requires forall b: BlockItem :: b in blocks ==> b !in own'
    ensures AllOk(z, medium, blocks, own')
  {}

  lemma Outside(z: Sizes, medium: Medium, blocks: set<BlockItem>, own: Owner)
    requires AllOk(z, medium, blocks, own)
    ensures forall b: BlockItem :: b in blocks ==> b !in own
  {}

  lemma OneAndRest(z: Sizes, medium: Medium, blocks: set<BlockItem>, own: Owner, b: BlockItem)
    requires AllOk(z, medium, blocks, own) && b in blocks
    ensures AllOk(z, medium, blocks - {b}, own) && b !in own
    ensures MemOk(z, b, own) && DiskOk(z, medium, b, own) && SizeOk(z, b)
  {}

  lemma OneWithRest(z: Sizes, medium: Medium, blocks: set<BlockItem>, own: Owner, b: BlockItem)
    requires AllOk(z, medium, blocks - {b}, own)
    requires b !in own && MemOk(z, b, own) && DiskOk(z, medium, b, own) && SizeOk(z, b)
    ensures AllOk(z, medium, blocks, own)
  {}

  lemma MemAttached(z: Sizes, medium: Medium, b: BlockItem, own: Owner)
    requires b.mem != null && b.mem in Parts(own, b) && b.mem.slices in Parts(own, b)
    requires b.mem.z == z && b.mem.Valid(b.content)
    ensures MemOk(z, b, own)
  {}

  lemma DiskAttached(z: Sizes, medium: Medium, b: BlockItem, own: Owner)
    requires b.disk != null && b.disk in Parts(own, b)
    requires b.disk.data in Parts(own, b) && b.disk.checksums in Parts(own, b)
    requires b.disk.z == z && b.disk.medium == medium && b.disk.Valid(b.content)
    ensures DiskOk(z, medium, b, own)
  {}

  type Holding = map<BlockItem, Stock>

  /** The stocks of an object's blocks. */
  ghost function Shown(h: Holding, bs: seq<BlockItem>): (stocks: seq<Stock>)
    ensures |stocks| == |bs|
  {
    seq(|bs|, i requires 0 <= i < |bs| => if bs[i] in h then h[bs[i]] else Stock([], None))
  }

  /** Blocks that are not among those that changed show what they did. */
  lemma ShownStill(before: Holding, after: Holding, changed: set<BlockItem>, bs: seq<BlockItem>)
    requires after - changed == before - changed && forall b :: b in bs ==> b !in changed
    ensures Shown(after, bs) == Shown(before, bs)
  {
    var a, c := Shown(after, bs), Shown(before, bs);
    forall i | 0 <= i < |bs|
      ensures a[i] == c[i]
    {
      assert bs[i] in bs && (bs[i] in after <==> bs[i] in after - changed) &&
            (bs[i] in before <==> bs[i] in before - changed);
      if bs[i] in after { assert (after - changed)[bs[i]] == (before - changed)[bs[i]]; }
    }
  }

  /** Of every block known before there is what there was. */
  ghost predicate Extended(before: Holding, after: Holding) {
    forall b :: b in before ==> b in after && after[b] == before[b]
  }

  lemma ShownMore(before: Holding, after: Holding, bs: seq<BlockItem>)
    requires Extended(before, after) && forall b :: b in bs ==> b in before
    ensures Shown(after, bs) == Shown(before, bs)
  {
    forall i | 0 <= i < |bs|
      ensures Shown(after, bs)[i] == Shown(before, bs)[i]
    {
      assert bs[i] in bs;
    }
  }

  /** All of the block's content can be had, and a flush would find it: it is on disk, or what memory
      lists of it reaches its end. */
  ghost predicate Settled(z: Sizes, content: seq<byte>, st: Stock) {
    && z.slice > 0 && Had(z, content, st, 0, |content|)
    && (st.data.Some? || Continuous(Listing(st.ss), 0) == |content|)
  }

  ghost predicate FullIn(z: Sizes, h: Holding, b: BlockItem) {
    b in h && Settled(z, b.content, h[b])
  }

  lemma FullStill(z: Sizes, before: Holding, after: Holding, b: BlockItem, o: BlockItem)
    requires after - {b} == before - {b} && o != b && FullIn(z, before, o)
    ensures FullIn(z, after, o)
  {
    hide Settled;
    assert o in before - {b} && (before - {b})[o] == (after - {b})[o];
  }

  /** Of every block there is what there was, or more. */
  ghost predicate HeldOn(before: Holding, after: Holding) {
    after.Keys == before.Keys && forall b :: b in before ==> NoLess(before[b], after[b])
  }

  lemma HeldOnItself(h: Holding)
    ensures HeldOn(h, h)
  {}

  lemma HeldOnThrough(a: Holding, b: Holding, c: Holding)
    requires HeldOn(a, b) && HeldOn(b, c)
    ensures HeldOn(a, c)
  {
    hide NoLess;
    forall o | o in a
      ensures NoLess(a[o], c[o])
    {
      NoLessThrough(a[o], b[o], c[o]);
    }
  }

  lemma HeldOnBut(before: Holding, after: Holding, b: BlockItem)
    requires b in before && b in after && after - {b} == before - {b} && NoLess(before[b], after[b])
    ensures HeldOn(before, after)
  {
    hide NoLess;
    forall o
      ensures o in before <==> o in after
      ensures o in before ==> NoLess(before[o], after[o])
    {
      assert o != b ==> (o in before <==> o in before - {b}) && (o in after <==> o in after - {b});
      if o in before && o != b {
        assert (before - {b})[o] == (after - {b})[o];
        NoLessItself(before[o]);
      }
    }
  }

  lemma NoLessItself(st: Stock)
    ensures NoLess(st, st)
  {}

  /** The store: every block ever made, and what belongs to it. */
  class Store {
    const z: Sizes
    const medium: Medium
    ghost var blocks: set<BlockItem>
    ghost var own: Owner

    ghost predicate Valid()
      reads this, blocks, own.Keys
    {
      z.Valid() && medium.Trusted() && this !in own && AllOk(z, medium, blocks, own)
    }

    constructor (z: Sizes, medium: Medium)
      requires z.Valid() && medium.Trusted()
      ensures Valid() && this.z == z && this.medium == medium && blocks == {} && own == map[]
    {
      this.z, this.medium := z, medium;
      blocks, own := {}, map[];
    }

    /** A new block, with nothing attached yet. */
    method AddBlock(b: BlockItem)
      requires Valid() && b !in own && SizeOk(z, b) && b.mem == null && b.disk == null
      modifies this`blocks
      ensures Valid() && blocks == old(blocks) + {b}
    {
      blocks := blocks + {b};
    }

    ghost function StockOf(b: BlockItem): Stock
      reads b`mem, b`disk, if b.mem == null then {} else {b.mem.slices}, if b.disk == null then {} else {b.disk.data}
    {
      Stock(InMemorySlices(b), if b.disk == null then None else Some(b.disk.data[..]))
    }

    /** What there is of every block. */
    ghost function Holdings(): (h: Holding)
      reads this`blocks, this`own, blocks, own.Keys
      ensures h.Keys == blocks
    {
      map b | b in blocks :: if Owned(b) then StockOf(b) else Stock([], None)
    }

    ghost predicate Owned(b: BlockItem)
      reads this`own, b
    {
      (b.mem != null ==> b.mem.slices in own) && (b.disk != null ==> b.disk.data in own)
    }

    /** Takes over the blocks of another store, and all that belongs to them. */
    method TakeOver(p: Store)
      requires Valid() && p.Valid() && p.z == z && p.medium == medium
      requires p.own.Keys !! own.Keys && this !in p.own
      requires forall b: BlockItem :: b in blocks + p.blocks ==> b !in own && b !in p.own
      modifies this`blocks, this`own
      ensures Valid() && blocks == old(blocks) + p.blocks && own == old(own) + p.own
      ensures Extended(old(Holdings()), Holdings()) && Extended(old(p.Holdings()), Holdings())
    {
      hide BlockOk, Owned, StockOf, Holdings;
      AllHoldings();
      p.AllHoldings();
      AlikeIn(p);
      ghost var own' := own + p.own;
      OwnerGrows(z, medium, blocks, own, own');
      OwnerGrows(z, medium, p.blocks, p.own, own');
      blocks, own := blocks + p.blocks, own';
      AllHoldings();
    }

    lemma AlikeIn(p: Store)
      requires p.z == z
      ensures forall b :: b in p.blocks ==> p.StockOf(b) == StockOf(b)
    {}

    lemma HoldingsBut(changed: set<BlockItem>, before: Holding)
      requires Valid() && before.Keys == blocks && forall o :: o in blocks && o !in changed ==> StockOf(o) == before[o]
      ensures Holdings() - changed == before - changed
    {
      hide StockOf, AllOk, Holdings;
      AllHoldings();
    }

    lemma HoldingsSame(before: Holding)
      requires Valid() && before.Keys == blocks && forall o :: o in blocks ==> StockOf(o) == before[o]
      ensures Holdings() == before
    {
      hide StockOf, AllOk, Holdings;
      AllHoldings();
    }

    /** What there is of a block with nothing attached. */
    ghost function NoStock(): Stock {
      Stock(seq(z.count, _ => None), None)
    }

    lemma EmptyStocks(bs: seq<BlockItem>)
      ensures forall b :: b in bs && b.mem == null && b.disk == null ==> StockOf(b) == NoStock()
    {}

    lemma AllHoldings()
      requires Valid()
      ensures forall b :: b in blocks ==> Holdings()[b] == StockOf(b)
    {
      hide StockOf, AllOk;
      AllOwned();
    }

    lemma HoldingOf(b: BlockItem)
      requires Valid() && b in blocks
      ensures Holdings()[b] == StockOf(b)
    {
      hide StockOf, AllOk;
      AllOwned();
    }

    ghost predicate Full(b: BlockItem)
      reads b`mem, b`disk, if b.mem == null then {} else {b.mem.slices}, if b.disk == null then {} else {b.disk.data}
    {
      Settled(z, b.content, StockOf(b))
    }

    lemma WholeIsHeldIn(b: BlockItem)
      requires Valid() && b in blocks && b.mem != null && Undisturbed(b.mem.z, b.mem.slices[..])
      ensures Continuous(Listing(b.mem.slices[..]), 0) == |b.content| <==>
              forall j :: 0 <= j < b.mem.slices.Length && z.SliceLower(j) < |b.content| ==> b.mem.slices[j].Some?
    {
      hide AllOk, DiskBlockItem.Valid, Fits, Listing, Undisturbed;
      MemHeld(b);
      WholeIsHeld(z, b.content, b.mem.slices[..]);
    }

    /** With every slice of the content in memory, all of it can be had. */
    lemma FullInMemory(b: BlockItem)
      requires Valid() && b in blocks && b.mem != null
      requires forall j :: 0 <= j < b.mem.slices.Length && z.SliceLower(j) < |b.content| ==> b.mem.slices[j].Some?
      requires Undisturbed(b.mem.z, b.mem.slices[..])
      ensures Full(b) && Continuous(Listing(b.mem.slices[..]), 0) == |b.content|
    {
      hide AllOk, DiskBlockItem.Valid, Fits, Listing, Undisturbed;
      WholeIsHeldIn(b);
      MemHeld(b);
      forall p: nat | p < |b.content|
        ensures HasByte(z, b.content, StockOf(b), p)
      {
        SliceInBlock(z, p);
        z.Locate(p);
      }
    }

    /** Where no transfer falls short, a disk block has all of the content, and so does one that agrees
        with it. */
    lemma FullOnDisk(b: BlockItem)
      requires Valid() && b in blocks && b.disk != null
      requires !medium.fallsShort ||
            (|b.content| <= b.disk.data.Length && Agrees(b.content, b.disk.data[..], 0, |b.content|))
      ensures Full(b) && WholeOnDisk(b.content, StockOf(b).data)
    {
      hide AllOk, MemBlockItem.Valid;
      MemHeld(b);
      forall p: nat | p < |b.content|
        ensures OnDisk(b.content, StockOf(b).data, p)
      {
        assert b.disk.data[..][p] == b.content[p];
      }
    }

    method DropMem(b: BlockItem)
      requires Valid() && b in blocks
      modifies b`mem
      ensures Valid() && b.mem == null && StockOf(b).data == old(StockOf(b).data)
      ensures Holdings() - {b} == old(Holdings()) - {b}
    {
      hide Holdings, DiskBlockItem.Valid;
      AllHoldings();
      ghost var before := Holdings();
      b.mem := null;
      HoldingsBut({b}, before);
    }

    method DropDisk(b: BlockItem)
      requires Valid() && b in blocks
      modifies b`disk
      ensures Valid() && b.disk == null
      ensures Holdings() - {b} == old(Holdings()) - {b}
    {
      hide Holdings, StockOf, MemBlockItem.Valid;
      AllHoldings();
      ghost var before := Holdings();
      b.disk := null;
      HoldingsBut({b}, before);
    }

    /** set_mem_block with a new memory block. */
    method AttachMem(b: BlockItem, m: MemBlockItem)
      requires Valid() && b in blocks
      requires m !in own && m.slices !in own && m.z == z && m.Valid(b.content)
      modifies b`mem, this`own
      ensures Valid() && b.mem == m
      ensures own == old(own)[m := b][m.slices := b]
      ensures Holdings() - {b} == old(Holdings()) - {b}
    {
      hide AllOk, BlockOk, MemOk, DiskOk, MemBlockItem.Valid, Sizes.Valid, StockOf, Holdings;
      AllHoldings();
      ghost var before := Holdings();
      ghost var own' := own[m := b][m.slices := b];
      Outside(z, medium, blocks, own);
      assert this !in own';
      OwnerGrows(z, medium, blocks, own, own');
      OneAndRest(z, medium, blocks, own', b);
      own := own';
      b.mem := m;
      MemAttached(z, medium, b, own);
      OneWithRest(z, medium, blocks, own, b);
      HoldingsBut({b}, before);
    }

    /** set_disk_block with a new disk block that was written without an error. */
    method AttachDisk(b: BlockItem, d: DiskBlockItem)
      requires Valid() && b in blocks
      requires d !in own && d.data !in own && d.checksums !in own
      requires d.z == z && d.medium == medium && d.Valid(b.content)
      modifies b`disk, this`own
      ensures Valid() && b.disk == d
      ensures own == old(own)[d := b][d.data := b][d.checksums := b]
      ensures Holdings() - {b} == old(Holdings()) - {b}
    {
      hide AllOk, BlockOk, MemOk, DiskOk, DiskBlockItem.Valid, Sizes.Valid, StockOf, Holdings;
      AllHoldings();
      ghost var before := Holdings();
      ghost var own' := own[d := b][d.data := b][d.checksums := b];
      Outside(z, medium, blocks, own);
      assert this !in own';
      OwnerGrows(z, medium, blocks, own, own');
      OneAndRest(z, medium, blocks, own', b);
      own := own';
      b.disk := d;
      DiskAttached(z, medium, b, own);
      OneWithRest(z, medium, blocks, own, b);
      HoldingsBut({b}, before);
    }

    /** A new memory block, with segments of the content entered in it. */
    method PutInNewMem(b: BlockItem, segments: seq<Segment>, dirty: bool)
      requires Valid() && b in blocks && AllFit(z, b.content, segments)
      modifies b`mem, this`own
      ensures Valid() && b.mem != null && fresh(b.mem) && fresh(b.mem.slices) && b.mem.dirty == dirty
      ensures own.Keys == old(own.Keys) + {b.mem, b.mem.slices}
      ensures b.mem.slices[..] == Written(z, seq(z.count, _ => None), segments)
      ensures Holdings() - {b} == old(Holdings()) - {b}
    {
      hide Fits, AllOk, Written, StockOf, Holdings;
      AllHoldings();
      ghost var before := Holdings();
      var mem := new MemBlockItem(z, dirty);
      NewHeld(b, mem);
      assert mem.slices[..] == seq(z.count, _ => None);
      mem.WriteBlock(segments, b.content);
      AllHoldings();
      AttachMem(b, mem);
      HoldingsBut({b}, before);
    }

    /** A new block for each part of the value. */
    method MakeBlocks(buf: seq<byte>) returns (made: seq<BlockItem>)
      requires Valid() && buf != []
      modifies this`blocks
      ensures Valid() && old(blocks) <= blocks && |made| == BlockCount(z, |buf|)
      ensures forall k :: 0 <= k < |made| ==> BlockMade(z, blocks, made[k], buf, k)
      ensures forall k :: 0 <= k < |made| ==> fresh(made[k]) && made[k].mem == null && made[k].disk == null
      ensures forall k, l :: 0 <= k < l < |made| ==> made[k] != made[l]
      ensures fresh(blocks - old(blocks))
    {
      hide AllOk, BlockContent, Sizes.Valid, BlockCount;
      made := [];
      BlockPositive();
      var count := BlockCount(z, |buf|);
      for i := 0 to count
        invariant Valid() && old(blocks) <= blocks && |made| == i && fresh(blocks - old(blocks))
        invariant forall k :: 0 <= k < i ==> BlockMade(z, blocks, made[k], buf, k)
        invariant forall k :: 0 <= k < i ==> fresh(made[k]) && made[k].mem == null && made[k].disk == null
        invariant forall k, l :: 0 <= k < l < i ==> made[k] != made[l]
      {
        BlockStarts(z, buf, i);
        var content := BlockContent(z, buf, i);
        var b := new BlockItem(|content|, content);
        AddBlock(b);
        made := made + [b];
      }
    }

    lemma BlockPositive()
      requires Valid()
      ensures z.Valid() && z.block > 0
    {}

    /** What belongs to one block belongs to no other. */
    lemma NotShared(b: BlockItem, o: BlockItem)
      requires Valid() && b in blocks && o in blocks && o != b
      ensures o.mem != null && b.mem != null ==> o.mem.slices != b.mem.slices
      ensures o.disk != null && b.disk != null ==> o.disk.data != b.disk.data
    {}

    lemma NoneShared(b: BlockItem)
      requires Valid() && b in blocks
      ensures forall o :: o in blocks && o != b && o.mem != null && b.mem != null ==> o.mem.slices != b.mem.slices
      ensures forall o :: o in blocks && o != b && o.disk != null && b.disk != null ==> o.disk.data != b.disk.data
    {
      hide AllOk;
      forall o | o in blocks && o != b
        ensures o.mem != null && b.mem != null ==> o.mem.slices != b.mem.slices
        ensures o.disk != null && b.disk != null ==> o.disk.data != b.disk.data
      {
        NotShared(b, o);
      }
    }

    /** Enters segments of its content into the memory block a block has. */
    method WriteMem(b: BlockItem, segments: seq<Segment>)
      requires Valid() && b in blocks && b.mem != null && AllFit(z, b.content, segments)
      modifies b.mem.slices
      ensures Valid() && b.mem.slices[..] == Written(z, old(b.mem.slices[..]), segments)
      ensures Holdings() - {b} == old(Holdings()) - {b}
    {
      hide Fits, Written, Holdings;
      NoneShared(b);
      AllHoldings();
      ghost var before := Holdings();
      b.mem.WriteBlock(segments, b.content);
      HoldingsBut({b}, before);
    }

    /** Writes segments over the disk block a block has.  Whatever comes of it, the disk block loses
        nothing of the content, and if the system does as told it has all that is in the segments. */
    method WriteDisk(b: BlockItem, segments: seq<Segment>, io: bool) returns (ok: bool)
      requires Valid() && b in blocks && b.disk != null && AllFit(z, b.content, segments)
      modifies b.disk.data, b.disk.checksums
      ensures Valid()
      ensures Holdings() - {b} == old(Holdings()) - {b}
      ensures KeepsOnDisk(b.content, old(StockOf(b).data), StockOf(b).data)
      ensures io ==> ok && ListedOnDisk(b.content, StockOf(b).data, segments)
    {
      hide Fits, DiskBlockItem.Valid, DiskBlockItem.HasRoom, Holdings, ListedBelow, OnDisk, StockOf;
      RoomOf(b);
      OnDiskIs(b);
      NoneShared(b);
      AllHoldings();
      ghost var before := Holdings();
      ghost var full;
      ok, full := WriteSegments(b.disk, segments, io, b.content);
      OnDiskIs(b);
      HoldingsBut({b}, before);
    }

    lemma RoomOf(b: BlockItem)
      requires Valid() && b in blocks && b.disk != null
      ensures b.disk.HasRoom(b.content) && b.disk.z == z && |b.content| <= b.disk.data.Length
    {}

    lemma OnDiskIs(b: BlockItem)
      requires b.disk != null && |b.content| <= b.disk.data.Length
      ensures forall p: nat :: p < |b.content| ==>
                (OnDisk(b.content, StockOf(b).data, p) <==> b.disk.data[p] == b.content[p])
    {}

    lemma PartsOf(b: BlockItem)
      requires Valid() && b in blocks
      ensures b.mem != null ==> b.mem in own && b.mem.slices in own
      ensures b.disk != null ==> b.disk in own && b.disk.data in own && b.disk.checksums in own
    {}

    lemma BlocksNotOwned()
      requires Valid()
      ensures this !in own && forall b: BlockItem :: b in blocks ==> b !in own
    {}

    lemma AllOwned()
      requires Valid()
      ensures forall b :: b in blocks && b.mem != null ==> b.mem.slices in own
      ensures forall b :: b in blocks && b.disk != null ==> b.disk.data in own
    {}

    lemma Sound()
      requires Valid()
      ensures z.Valid() && medium.Trusted()
    {}

    lemma NewHeld(b: BlockItem, mem: MemBlockItem)
      requires Valid() && b in blocks && mem.z == z
      requires mem.slices.Length == z.count && forall j :: 0 <= j < z.count ==> mem.slices[j] == None
      ensures mem.Valid(b.content)
    {}

    lemma Room(b: BlockItem, d: DiskBlockItem)
      requires Valid() && b in blocks
      requires d.data.Length == z.block && d.checksums.Length == z.count && d.z == z
      ensures d.HasRoom(b.content) && |b.content| == b.blockSize && |b.content| <= d.data.Length
    {}

    /** What memory holds of a block, slice by slice. */
    ghost function InMemorySlices(b: BlockItem): (ss: Slices)
      reads b`mem, if b.mem == null then {} else {b.mem.slices}
    {
      if b.mem == null then seq(z.count, _ => None) else b.mem.slices[..]
    }

    lemma SizesOf(b: BlockItem)
      requires Valid() && b in blocks
      ensures |b.content| == b.blockSize
      ensures b.disk == null <==> StockOf(b).data == None
    {}

    lemma SlicesOf(b: BlockItem)
      ensures StockOf(b).ss == InMemorySlices(b)
      ensures b.mem != null ==> StockOf(b).ss == b.mem.slices[..]
    {}

    lemma MemHeld(b: BlockItem)
      requires Valid() && b in blocks
      ensures Held(z, b.content, InMemorySlices(b)) && 0 < |b.content|
      ensures b.mem != null ==> b.mem.z == z && b.mem.Valid(b.content)
      ensures b.mem == null ==> forall lo: nat, hi: nat :: lo <= hi <= |b.content| ==>
            Pieces(z, b.content, InMemorySlices(b), lo, hi, [])
      ensures b.disk != null ==> b.disk.z == z && b.disk.medium == medium && b.disk.Valid(b.content)
    {
      hide AllOk, Pieces, DiskBlockItem.Valid;
      OneAndRest(z, medium, blocks, own, b);
      if b.mem == null { NothingHeld(z, b.content, InMemorySlices(b)); }
    }

    /** Reads a range from a block's disk block and adds it to what has been read. */
    method AppendFromDisk(b: BlockItem, cursor: nat, size: nat, io: bool, buf: seq<byte>, diskSegments: seq<Segment>)
      returns (ok: bool, buf': seq<byte>, diskSegments': seq<Segment>)
      requires Valid() && b in blocks && b.disk != null && cursor + size <= |b.content| <= b.disk.data.Length
      requires z.Valid() && 0 < size && AllFit(z, b.content, diskSegments)
      ensures ok && (EndsWell(z, b.content, cursor + size) || !medium.fallsShort) ==>
              buf' == buf + b.content[cursor..cursor + size]
      ensures EndsWell(z, b.content, cursor + size) && io ==>
              (ok <==> z.Aligned(cursor) && Agrees(b.content, b.disk.data[..], cursor, cursor + size))
      ensures EndsWell(z, b.content, cursor + size) ==> AllFit(z, b.content, diskSegments')
      ensures ok ==> Grew(diskSegments, diskSegments', cursor, cursor + size)
    {
      hide Fits, EndsWell, MemBlockItem.Valid, DiskBlockItem.Valid, AllOk, Agrees;
      MemHeld(b);
      var addr: nat := *;
      var bs;
      ok, bs := b.disk.ReadBlock(cursor, size, io, addr, b.content);
      if !ok {
        return false, buf, diskSegments;
      }
      assert Extract(bs.buf, bs.size, 0) == bs.buf[..size];
      buf' := buf + Extract(bs.buf, bs.size, 0);
      diskSegments' := diskSegments + [bs];
    }

    /** A piece from memory, and what is missing before it from disk. */
    method AppendPiece(b: BlockItem, cursor: nat, seg: Segment, io: bool, buf: seq<byte>, diskSegments: seq<Segment>)
      returns (ok: bool, buf': seq<byte>, diskSegments': seq<Segment>)
      requires Valid() && b in blocks && cursor <= seg.offset && seg.offset + |seg.buf| <= |b.content|
      requires z.Valid() && (cursor < seg.offset ==>
                 b.disk != null && |b.content| <= b.disk.data.Length && z.Aligned(seg.offset))
      requires seg.buf == b.content[seg.offset..seg.offset + |seg.buf|] && AllFit(z, b.content, diskSegments)
      ensures AllFit(z, b.content, diskSegments') && (cursor == seg.offset ==> ok)
      ensures io && cursor < seg.offset ==>
                (ok <==> z.Aligned(cursor) && Agrees(b.content, b.disk.data[..], cursor, seg.offset))
      ensures ok ==> buf' == buf + b.content[cursor..seg.offset + |seg.buf|]
      ensures ok ==> Grew(diskSegments, diskSegments', cursor, seg.offset)
    {
      hide AllFit, AllOk, Sizes.Valid, Agrees;
      ok, buf', diskSegments' := true, buf, diskSegments;
      if seg.offset > cursor {
        ok, buf', diskSegments' := AppendFromDisk(b, cursor, seg.offset - cursor, io, buf, diskSegments);
        if !ok {
          return;
        }
      }
      SlicesJoin(b.content, cursor, seg.offset, seg.offset + |seg.buf|);
      assert buf' + seg.buf == buf + (b.content[cursor..seg.offset] + seg.buf);
      buf' := buf' + seg.buf;
    }

    /** The pieces of the range that memory has: where a read of the block starts from. */
    method PiecesInMemory(b: BlockItem, offset: nat, size: nat) returns (segments: seq<Segment>)
      requires Valid() && b in blocks && 0 < size && offset + size <= |b.content|
      requires Held(z, b.content, InMemorySlices(b))
      ensures Progress(z, b.content, InMemorySlices(b), offset, offset + size, segments, 0, offset)
      ensures b.disk != null ==> |b.content| <= b.disk.data.Length
      ensures z.Valid() && AllFit(z, b.content, [])
    {
      hide Held, MemBlockItem.Valid, DiskBlockItem.Valid, AllOk, InMemory, Pieces, Progress;
      MemHeld(b);
      if b.disk != null { RoomOf(b); }
      segments := [];
      if b.mem != null {
        segments := b.mem.ReadBlock(offset, size, b.content);
      }
      Start(z, b.content, InMemorySlices(b), offset, offset + size, segments);
    }

    /** The next piece, unless the bytes before it are nowhere to be had. */
    method ReadPiece(b: BlockItem, offset: nat, size: nat, segs: seq<Segment>, k: nat, cursor: nat, io: bool,
                     buf: seq<byte>, diskSegments: seq<Segment>)
      returns (ok: bool, hole: bool, buf': seq<byte>, diskSegments': seq<Segment>)
      requires Valid() && b in blocks && z.slice > 0 && Held(z, b.content, InMemorySlices(b))
      requires offset + size <= |b.content| && (b.disk != null ==> |b.content| <= b.disk.data.Length)
      requires k < |segs| && Progress(z, b.content, InMemorySlices(b), offset, offset + size, segs, k, cursor)
      requires z.Valid() && AllFit(z, b.content, diskSegments) &&
            ReadSoFar(z, b.content, StockOf(b), offset, cursor, io, buf)
      requires Sourced(z, InMemorySlices(b), diskSegments, offset, cursor)
      ensures AllFit(z, b.content, diskSegments')
      ensures Had(z, b.content, MemoryOnly(StockOf(b)), offset, size) ==> ok && !hole && diskSegments' == diskSegments
      ensures !ok && io && z.Aligned(offset) ==> !Had(z, b.content, StockOf(b), offset, size)
      ensures hole ==> ok && b.disk == null && |buf'| < size && !Had(z, b.content, StockOf(b), offset, size)
      ensures ok && !hole ==>
                var next := segs[k].offset + |segs[k].buf|;
                && Progress(z, b.content, InMemorySlices(b), offset, offset + size, segs, k + 1, next)
                && ReadSoFar(z, b.content, StockOf(b), offset, next, io, buf')
                && Sourced(z, InMemorySlices(b), diskSegments', offset, next)
    {
      hide AllFit, Held, AllOk, Valid, InMemory, InMemorySlices, Progress, HasByte, Agrees, Sizes.Valid, Sizes.Aligned,
           Sourced, Grew, InSlices;
      ghost var content, st, end := b.content, StockOf(b), offset + size;
      var seg := segs[k];
      PieceIsHeld(z, content, st.ss, offset, end, segs, k, cursor);
      PieceIsHad(z, content, st, offset, end, segs, k, cursor);
      GapIsMissing(z, content, st, offset, end, segs, k, cursor, seg.offset);
      NoGap(z, content, st, offset, end, segs, k, cursor, seg.offset);
      if seg.offset > cursor && b.disk == null {
        return true, true, buf, diskSegments;
      }
      if seg.offset > cursor { GapRange(z, content, st.ss, offset, end, segs, k, cursor); }
      hole := false;
      ok, buf', diskSegments' := AppendPiece(b, cursor, seg, io, buf, diskSegments);
      if ok {
        SlicesJoin(content, offset, cursor, seg.offset + |seg.buf|);
        SourcedOn(z, st.ss, diskSegments, diskSegments', offset, cursor, seg.offset, seg.offset + |seg.buf|);
      }
      if cursor == seg.offset { GrewNot(diskSegments, diskSegments', cursor); }
    }

    /** What is behind the last piece. */
    method ReadTail(b: BlockItem, offset: nat, size: nat, segs: seq<Segment>, cursor: nat, io: bool,
                    buf: seq<byte>, diskSegments: seq<Segment>)
      returns (ok: bool, buf': seq<byte>, diskSegments': seq<Segment>)
      requires Valid() && b in blocks && z.slice > 0 && Held(z, b.content, InMemorySlices(b))
      requires offset + size <= |b.content| && (b.disk != null ==> |b.content| <= b.disk.data.Length)
      requires Progress(z, b.content, InMemorySlices(b), offset, offset + size, segs, |segs|, cursor)
      requires z.Valid() && AllFit(z, b.content, diskSegments) &&
            ReadSoFar(z, b.content, StockOf(b), offset, cursor, io, buf)
      requires Sourced(z, InMemorySlices(b), diskSegments, offset, cursor)
      ensures Had(z, b.content, MemoryOnly(StockOf(b)), offset, size) ==>
              ok && buf' == b.content[offset..offset + size] && diskSegments' == diskSegments
      ensures ok && |buf'| >= size ==> Sourced(z, InMemorySlices(b), diskSegments', offset, offset + size)
      ensures ok && |buf'| >= size && (EndsWell(z, b.content, offset + size) || !medium.fallsShort) ==>
              buf' == b.content[offset..offset + size]
      ensures io && GoodRange(z, b.content, offset, size) ==>
              (ok && |buf'| >= size <==> Had(z, b.content, StockOf(b), offset, size))
      ensures EndsWell(z, b.content, offset + size) ==> AllFit(z, b.content, diskSegments')
    {
      hide AllFit, Held, EndsWell, AllOk, Valid, InMemory, InMemorySlices, Progress, HasByte, Agrees, Sizes.Valid,
           Sizes.Aligned, Sourced, Grew, InSlices;
      ghost var content, st, end := b.content, StockOf(b), offset + size;
      TailOf(z, content, st.ss, offset, end, segs, cursor);
      GapIsMissing(z, content, st, offset, end, segs, |segs|, cursor, end);
      NoGap(z, content, st, offset, end, segs, |segs|, cursor, end);
      if b.disk == null || |buf| >= size {
        return true, buf, diskSegments;
      }
      ok, buf', diskSegments' := AppendFromDisk(b, cursor, size - |buf|, io, buf, diskSegments);
      if ok {
        SlicesJoin(content, offset, cursor, end);
        SourcedOn(z, st.ss, diskSegments, diskSegments', offset, cursor, end, end);
      }
    }

    /** _read_block: memory's pieces, the gaps between them from disk.  It succeeds, if the system does
        as it is told, exactly when every byte of the range can be had, and it then returns exactly the
        content of the range; whatever the system does, it never returns anything else.  That is so of a
        range of whole slices; of any range, what it returns is right where transfers do not fall short.
        From disk comes what memory has not got, so nothing if it has all of it. */
    method ReadBlock(b: BlockItem, offset: nat, size: nat, io: bool)
      returns (ok: bool, buf: seq<byte>, diskSegments: seq<Segment>)
      requires Valid() && b in blocks && 0 < size && offset + size <= |b.content|
      requires Held(z, b.content, InMemorySlices(b)) && z.slice > 0
      ensures ok && (EndsWell(z, b.content, offset + size) || !medium.fallsShort) ==>
              buf == b.content[offset..offset + size]
      ensures io && GoodRange(z, b.content, offset, size) ==>
              (ok <==> Had(z, b.content, StockOf(b), offset, size))
      ensures EndsWell(z, b.content, offset + size) ==> AllFit(z, b.content, diskSegments)
      ensures Had(z, b.content, MemoryOnly(StockOf(b)), offset, size) ==>
              ok && buf == b.content[offset..offset + size] && diskSegments == []
      ensures ok ==> Sourced(z, InMemorySlices(b), diskSegments, offset, offset + size)
    {
      hide AllFit, Held, EndsWell, AllOk, Valid, InMemory, InMemorySlices, StockOf, Progress, Had, HasByte, Sizes.Valid,
           Sizes.Aligned, InSlices;
      buf, diskSegments := [], [];
      var segments := PiecesInMemory(b, offset, size);
      var cursor: nat := offset;
      var holeExist := false;
      var k := 0;
      while k < |segments| && !holeExist
        invariant k <= |segments| && AllFit(z, b.content, diskSegments)
        invariant !holeExist ==> Progress(z, b.content, InMemorySlices(b), offset, offset + size, segments, k, cursor)
        invariant !holeExist ==> ReadSoFar(z, b.content, StockOf(b), offset, cursor, io, buf)
        invariant holeExist ==> b.disk == null && |buf| < size && !Had(z, b.content, StockOf(b), offset, size)
        invariant !holeExist ==> Sourced(z, InMemorySlices(b), diskSegments, offset, cursor)
        invariant Had(z, b.content, MemoryOnly(StockOf(b)), offset, size) ==> !holeExist && diskSegments == []
        decreases |segments| - k, !holeExist
      {
        var readOk;
        readOk, holeExist, buf, diskSegments := ReadPiece(b, offset, size, segments, k, cursor, io, buf, diskSegments);
        if !readOk {
          return false, buf, diskSegments;
        }
        if !holeExist {
          cursor := segments[k].offset + |segments[k].buf|;
          k := k + 1;
        }
      }
      if holeExist {
        return false, buf, diskSegments;
      }
      ok, buf, diskSegments := ReadTail(b, offset, size, segments, cursor, io, buf, diskSegments);
      ok := ok && |buf| >= size;
    }
  }

  /** What has been read is the content up to the cursor, and could be had, if the system did as told. */
  ghost predicate ReadSoFar(z: Sizes, content: seq<byte>, st: Stock, offset: nat, cursor: nat, io: bool, buf: seq<byte>)
    requires z.slice > 0
  {
    && offset <= cursor <= |content| && buf == content[offset..cursor]
    && (io ==> forall p: nat :: offset <= p < cursor ==> HasByte(z, content, st, p))
  }

  /** The list grew by one segment, from lo to hi; or not at all, if that is nothing. */
  ghost predicate Grew(before: seq<Segment>, after: seq<Segment>, lo: nat, hi: nat) {
    if lo == hi then after == before
    else
      && |after| == |before| + 1 && after[..|before|] == before
      && after[|before|].offset == lo && after[|before|].offset + after[|before|].size == hi
  }

  lemma GrewNot(before: seq<Segment>, after: seq<Segment>, lo: nat)
    ensures Grew(before, after, lo, lo) <==> after == before
  {}

  /** What has been read from lo to hi was in memory, or is in the segments read from disk. */
  ghost predicate Sourced(z: Sizes, ss: Slices, segs: seq<Segment>, lo: nat, hi: nat)
    requires z.slice > 0
  {
    forall p: nat :: lo <= p < hi && !InSlices(z, ss, p) ==> ListedBelow(segs, |segs|, p)
  }

  lemma SourcedOn(z: Sizes, ss: Slices, segs: seq<Segment>, segs': seq<Segment>, lo: nat, cursor: nat, mid: nat,
                  hi: nat)
    requires z.slice > 0 && Sourced(z, ss, segs, lo, cursor) && cursor <= mid <= hi && Grew(segs, segs', cursor, mid)
    requires forall p: nat :: mid <= p < hi ==> InSlices(z, ss, p)
    ensures Sourced(z, ss, segs', lo, hi)
  {
    hide InSlices;
    forall p: nat | lo <= p < hi && !InSlices(z, ss, p)
      ensures ListedBelow(segs', |segs'|, p)
    {
      if p < cursor {
        var k :| 0 <= k < |segs| && segs[k].offset <= p < segs[k].offset + segs[k].size;
        assert segs'[..|segs|][k] == segs[k];
        assert segs'[k].offset <= p < segs'[k].offset + segs'[k].size;
      } else {
        assert segs'[|segs|].offset <= p < segs'[|segs|].offset + segs'[|segs|].size;
      }
    }
  }

  /** Segments for the same bytes. */
  ghost predicate Alike(a: seq<Segment>, b: seq<Segment>) {
    && |a| == |b|
    && forall k :: 0 <= k < |a| ==> a[k].offset == b[k].offset && a[k].size == b[k].size && a[k].buf == b[k].buf
  }

  /** Once segments like those read from disk are in memory, memory has all of the range. */
  lemma SourcedIn(z: Sizes, content: seq<byte>, ss: Slices, segs: seq<Segment>, segs': seq<Segment>, lo: nat, hi: nat)
    requires Held(z, content, ss) && AllFit(z, content, segs') && Alike(segs, segs') && lo <= hi <= |content|
    requires Sourced(z, ss, segs, lo, hi)
    ensures Had(z, content, Stock(Written(z, ss, segs'), None), lo, hi - lo)
  {
    hide Fits, Written;
    HeldShape(z, content, ss);
    forall p: nat | lo <= p < hi
      ensures HasByte(z, content, Stock(Written(z, ss, segs'), None), p)
    {
      SliceInBlock(z, p);
      if InSlices(z, ss, p) {
        WrittenGrows(z, ss, segs', z.SliceOf(p));
      } else {
        var k :| 0 <= k < |segs| && segs[k].offset <= p < segs[k].offset + segs[k].size;
        FitsSpans(z, content, segs'[k], p);
        WrittenEnters(z, ss, segs', k, z.SliceOf(p));
      }
    }
  }

  lemma FitsSpans(z: Sizes, content: seq<byte>, seg: Segment, p: nat)
    requires z.Valid() && Fits(z, content, seg) && seg.offset <= p < seg.offset + seg.size
    ensures seg.buf != [] && Spans(z, seg, z.SliceOf(p))
  {
    z.OfMono(seg.offset, p);
    z.OfMono(p, seg.offset + seg.size - 1);
  }

  lemma NothingHeld(z: Sizes, content: seq<byte>, ss: Slices)
    requires z.Valid() && |ss| == z.count && |content| <= z.block && forall j :: 0 <= j < |ss| ==> ss[j] == None
    ensures Held(z, content, ss)
    ensures forall lo: nat, hi: nat :: lo <= hi <= |content| ==> Pieces(z, content, ss, lo, hi, [])
  {
    hide Pieces, Sizes.Valid, Sizes.SliceOf, Fits;
    forall lo: nat, hi: nat | lo <= hi <= |content|
      ensures Pieces(z, content, ss, lo, hi, [])
    {
      NoPieceOf(z, content, ss, lo, hi);
    }
  }

  lemma NoPieceOf(z: Sizes, content: seq<byte>, ss: Slices, lo: nat, hi: nat)
    requires Held(z, content, ss) && lo <= hi <= |content| && forall j :: 0 <= j < |ss| ==> ss[j] == None
    ensures Pieces(z, content, ss, lo, hi, [])
  {
    forall p | lo <= p < hi
      ensures !InMemory(z, content, ss, p)
    {
      SliceInBlock(z, p);
    }
  }

  // ----- Walking over the pieces of a read --------------------------------------------------------------

  /** The read has come to `cursor`, the end of the k-th piece. */
  ghost predicate Progress(z: Sizes, content: seq<byte>, ss: Slices, lo: nat, hi: nat, segs: seq<Segment>, k: nat,
                           cursor: nat)
    requires Held(z, content, ss) && hi <= |content| && k <= |segs|
  {
    && Pieces(z, content, ss, lo, hi, segs) && lo <= cursor <= hi
    && cursor == if k == 0 then lo else segs[k - 1].offset + |segs[k - 1].buf|
  }

  /** Between two pieces, or behind the last, nothing is in memory: the bytes there can be had exactly
      when the disk block has them. */
  lemma GapIsMissing(z: Sizes, content: seq<byte>, st: Stock, lo: nat, hi: nat, segs: seq<Segment>, k: nat,
                     cursor: nat, end: nat)
    requires Held(z, content, st.ss) && hi <= |content| && k <= |segs| && cursor <= end && z.slice > 0
    requires Progress(z, content, st.ss, lo, hi, segs, k, cursor)
    requires end == if k < |segs| then segs[k].offset else hi
    ensures end <= hi
    ensures st.data.None? && cursor < end ==> !HasByte(z, content, st, cursor)
    ensures st.data.Some? && |content| <= |st.data.value| ==>
              (Agrees(content, st.data.value, cursor, end) <==> forall p: nat :: cursor <= p < end ==>
                    HasByte(z, content, st, p))
  {
    hide Held, Pieces;
    if k < |segs| { EndOfGap(z, content, st.ss, lo, hi, segs, k, cursor); }
    forall p: nat | cursor <= p < end
      ensures HasByte(z, content, st, p) <==> OnDisk(content, st.data, p)
    {
      GapByte(z, content, st.ss, lo, hi, segs, k, cursor, p);
    }
    if st.data.Some? && |content| <= |st.data.value| && forall p: nat :: cursor <= p < end ==>
          HasByte(z, content, st, p) {
      forall p: nat | cursor <= p < end
        ensures st.data.value[p] == content[p]
      {
        assert HasByte(z, content, st, p);
      }
    }
  }

  /** Where memory has all of the range there is no gap. */
  lemma NoGap(z: Sizes, content: seq<byte>, st: Stock, lo: nat, hi: nat, segs: seq<Segment>, k: nat,
              cursor: nat, end: nat)
    requires Held(z, content, st.ss) && hi <= |content| && k <= |segs| && cursor <= end <= hi && z.slice > 0
    requires Progress(z, content, st.ss, lo, hi, segs, k, cursor)
    requires end == if k < |segs| then segs[k].offset else hi
    ensures Had(z, content, MemoryOnly(st), lo, hi - lo) ==> cursor == end
  {
    hide Held, Pieces, InSlices;
    if cursor < end {
      GapByte(z, content, st.ss, lo, hi, segs, k, cursor, cursor);
      assert !HasByte(z, content, MemoryOnly(st), cursor);
    }
  }

  lemma EndOfGap(z: Sizes, content: seq<byte>, ss: Slices, lo: nat, hi: nat, segs: seq<Segment>, k: nat, cursor: nat)
    requires Held(z, content, ss) && hi <= |content| && k < |segs|
    requires Progress(z, content, ss, lo, hi, segs, k, cursor)
    ensures segs[k].offset <= hi
  {
    assert GoodPiece(z, content, lo, hi, segs[k]);
  }

  lemma GapByte(z: Sizes, content: seq<byte>, ss: Slices, lo: nat, hi: nat, segs: seq<Segment>, k: nat,
                cursor: nat, p: nat)
    requires Held(z, content, ss) && hi <= |content| && k <= |segs| && cursor <= p < hi && z.slice > 0
    requires Progress(z, content, ss, lo, hi, segs, k, cursor)
    requires k < |segs| ==> p < segs[k].offset
    ensures !InSlices(z, ss, p)
  {
    forall i | 0 <= i < |segs|
      ensures !InPiece(segs[i], p)
    {
      if i < k - 1 { assert segs[i].offset + |segs[i].buf| <= segs[k - 1].offset; }
      if k < i { assert segs[k].offset + |segs[k].buf| <= segs[i].offset; }
    }
    assert !InMemory(z, content, ss, p);
  }

  lemma GapRange(z: Sizes, content: seq<byte>, ss: Slices, lo: nat, hi: nat, segs: seq<Segment>, k: nat, cursor: nat)
    requires Held(z, content, ss) && hi <= |content| && k < |segs|
    requires Progress(z, content, ss, lo, hi, segs, k, cursor) && cursor < segs[k].offset
    ensures z.Aligned(segs[k].offset) && (z.Aligned(lo) ==> z.Aligned(cursor))
  {
    assert GoodPiece(z, content, lo, hi, segs[k]);
    if k > 0 { assert GoodPiece(z, content, lo, hi, segs[k - 1]); }
  }

  lemma Start(z: Sizes, content: seq<byte>, ss: Slices, lo: nat, hi: nat, segs: seq<Segment>)
    requires Held(z, content, ss) && hi <= |content| && Pieces(z, content, ss, lo, hi, segs)
    requires lo <= hi
    ensures Progress(z, content, ss, lo, hi, segs, 0, lo)
  {}

  lemma PieceIsHeld(z: Sizes, content: seq<byte>, ss: Slices, lo: nat, hi: nat, segs: seq<Segment>, k: nat, cursor: nat)
    requires Held(z, content, ss) && hi <= |content| && k < |segs|
    requires Progress(z, content, ss, lo, hi, segs, k, cursor)
    ensures var seg := segs[k];
            && lo <= seg.offset && seg.offset + |seg.buf| <= hi
            && seg.buf == content[seg.offset..seg.offset + |seg.buf|]
            && (forall p :: seg.offset <= p < seg.offset + |seg.buf| ==> InMemory(z, content, ss, p))
            && lo <= cursor <= seg.offset
            && Progress(z, content, ss, lo, hi, segs, k + 1, seg.offset + |seg.buf|)
  {
    assert GoodPiece(z, content, lo, hi, segs[k]);
    forall p | segs[k].offset <= p < segs[k].offset + |segs[k].buf|
      ensures InMemory(z, content, ss, p)
    {
      assert InPiece(segs[k], p);
    }
  }

  lemma PieceIsHad(z: Sizes, content: seq<byte>, st: Stock, lo: nat, hi: nat, segs: seq<Segment>, k: nat, cursor: nat)
    requires Held(z, content, st.ss) && hi <= |content| && k < |segs| && z.slice > 0
    requires Progress(z, content, st.ss, lo, hi, segs, k, cursor)
    ensures segs[k].offset + |segs[k].buf| <= |content|
    ensures forall p: nat :: segs[k].offset <= p < segs[k].offset + |segs[k].buf| ==>
          HasByte(z, content, st, p) && InSlices(z, st.ss, p)
  {
    hide Held, Progress;
    PieceIsHeld(z, content, st.ss, lo, hi, segs, k, cursor);
    forall p: nat | segs[k].offset <= p < segs[k].offset + |segs[k].buf|
      ensures HasByte(z, content, st, p) && InSlices(z, st.ss, p)
    {
      HeldShape(z, content, st.ss);
      SliceInBlock(z, p);
      assert InMemory(z, content, st.ss, p);
    }
  }

  /** After the last piece: what is left can be asked of the disk. */
  lemma TailOf(z: Sizes, content: seq<byte>, ss: Slices, lo: nat, hi: nat, segs: seq<Segment>, cursor: nat)
    requires Held(z, content, ss) && hi <= |content|
    requires Progress(z, content, ss, lo, hi, segs, |segs|, cursor)
    ensures cursor <= hi && (cursor < hi && z.Aligned(lo) ==> z.Aligned(cursor))
  {
    if cursor < hi && segs != [] { assert GoodPiece(z, content, lo, hi, segs[|segs| - 1]); }
  }
}
