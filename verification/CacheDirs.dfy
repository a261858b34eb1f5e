/** A cache directory: its blocks, given out from spaces of 1024 by two levels of free marks, and the
    block files they lie in. */
module CacheDirs {
  import opened Common

  const BLOCK_COUNT_IN_SPACE: nat := 1024

  /** BlockSpace: which of its blocks are free, and how many. */
  datatype BlockSpace = BlockSpace(start: nat, freeBits: seq<bool>, freeCount: nat)

  function Popcount(bits: seq<bool>): nat {
    if bits == [] then 0 else Popcount(bits[..|bits| - 1]) + (if bits[|bits| - 1] then 1 else 0)
  }

  lemma {:induction false} PopcountUpdate(bits: seq<bool>, i: nat, bit: bool)
    requires i < |bits|
    ensures Popcount(bits[i := bit]) == Popcount(bits) - (if bits[i] then 1 else 0) + (if bit then 1 else 0)
  {
    var n := |bits| - 1;
    if i < n {
      PopcountUpdate(bits[..n], i, bit);
      assert bits[i := bit][..n] == bits[..n][i := bit];
    } else {
      assert bits[i := bit][..n] == bits[..n];
    }
  }

  lemma {:induction false} PopcountZero(bits: seq<bool>)
    ensures Popcount(bits) == 0 <==> forall i :: 0 <= i < |bits| ==> !bits[i]
  {
    if bits != [] {
      PopcountZero(bits[..|bits| - 1]);
      assert bits == bits[..|bits| - 1] + [bits[|bits| - 1]];
    }
  }

  lemma {:induction false} PopcountAll(n: nat)
    ensures Popcount(seq(n, _ => true)) == n
  {
    if n > 0 {
      PopcountAll(n - 1);
      assert seq(n, _ => true)[..n - 1] == seq(n - 1, _ => true);
    }
  }

  /** dynamic_bitset's find_first. */
  method FindFirst(bits: seq<bool>) returns (i: nat)
    requires Popcount(bits) > 0
    ensures i < |bits| && bits[i] && forall j :: 0 <= j < i ==> !bits[j]
  {
    PopcountZero(bits);
    i := 0;
    while !bits[i]
      invariant i < |bits| && forall j :: 0 <= j < i ==> !bits[j]
      decreases |bits| - i
    {
      i := i + 1;
      if i == |bits| {
        assert false;
        return;
      }
    }
  }

  /** How many blocks the i-th space has: the last one may be short, or empty. */
  function SpaceSize(total: nat, i: nat): nat {
    if (i + 1) * BLOCK_COUNT_IN_SPACE <= total then BLOCK_COUNT_IN_SPACE
    else if i * BLOCK_COUNT_IN_SPACE <= total then total - i * BLOCK_COUNT_IN_SPACE
    else 0
  }

  predicate SpaceOk(total: nat, i: nat, s: BlockSpace) {
    && |s.freeBits| == SpaceSize(total, i) && s.freeCount == Popcount(s.freeBits)
    && (|s.freeBits| > 0 ==> s.start == i * BLOCK_COUNT_IN_SPACE)
  }

  predicate NoDup(s: seq<nat>) {
    forall i, j :: 0 <= i < j < |s| ==> s[i] != s[j]
  }

  /** Every space agrees with its count, and is queued exactly once while it has free blocks. */
  ghost predicate SpacesOk(total: nat, spaces: seq<BlockSpace>) {
    && |spaces| == total / BLOCK_COUNT_IN_SPACE + 1
    && forall i :: 0 <= i < |spaces| ==> SpaceOk(total, i, spaces[i])
  }

  ghost predicate Queued(spaces: seq<BlockSpace>, queue: seq<nat>) {
    && NoDup(queue)
    && forall i :: i in queue <==> 0 <= i < |spaces| && spaces[i].freeCount > 0
  }

  ghost predicate IsFree(total: nat, spaces: seq<BlockSpace>, b: nat)
    requires SpacesOk(total, spaces)
  {
    b < total && (InSpace(total, b); spaces[b / BLOCK_COUNT_IN_SPACE].freeBits[b % BLOCK_COUNT_IN_SPACE])
  }

  /** The blocks that are given out. */
  ghost function LiveBlocks(total: nat, spaces: seq<BlockSpace>): (r: set<nat>)
    requires SpacesOk(total, spaces)
    ensures r <= Range(total)
  {
    set b | b in Range(total) && !IsFree(total, spaces, b)
  }

  lemma InSpace(total: nat, b: nat)
    requires b < total
    ensures b / BLOCK_COUNT_IN_SPACE <= total / BLOCK_COUNT_IN_SPACE
    ensures b % BLOCK_COUNT_IN_SPACE < SpaceSize(total, b / BLOCK_COUNT_IN_SPACE)
    ensures b == b / BLOCK_COUNT_IN_SPACE * BLOCK_COUNT_IN_SPACE + b % BLOCK_COUNT_IN_SPACE
  {}

  lemma BlockAt(total: nat, i: nat, inner: nat)
    requires inner < SpaceSize(total, i)
    ensures var b := i * BLOCK_COUNT_IN_SPACE + inner;
            b < total && b / BLOCK_COUNT_IN_SPACE == i && b % BLOCK_COUNT_IN_SPACE == inner
  {}

  /** Marking one block changes that block and no other. */
  lemma MarkOne(total: nat, spaces: seq<BlockSpace>, i: nat, inner: nat, free: bool, s': BlockSpace)
    requires SpacesOk(total, spaces) && i < |spaces| && inner < |spaces[i].freeBits| &&
          spaces[i].freeBits[inner] != free
    requires s'.start == spaces[i].start && s'.freeBits == spaces[i].freeBits[inner := free]
    requires s'.freeCount == spaces[i].freeCount + (if free then 1 else -1)
    ensures SpacesOk(total, spaces[i := s'])
    ensures var b, live := spaces[i].start + inner, LiveBlocks(total, spaces);
            var live' := LiveBlocks(total, spaces[i := s']);
            && b < total && b / BLOCK_COUNT_IN_SPACE == i
            && (free ==> b in live && live' == live - {b})
            && (!free ==> b !in live && live' == live + {b})
  {
    hide IsFree;
    MarkedSpaces(total, spaces, i, inner, free, s');
    BlockAt(total, i, inner);
    var b := spaces[i].start + inner;
    forall b' | b' in Range(total)
      ensures IsFree(total, spaces[i := s'], b') == (if b' == b then free else IsFree(total, spaces, b'))
      ensures b' == b ==> IsFree(total, spaces, b') != free
    {
      MarkedBit(total, spaces, i, inner, free, s', b');
    }
  }

  lemma MarkedSpaces(total: nat, spaces: seq<BlockSpace>, i: nat, inner: nat, free: bool, s': BlockSpace)
    requires SpacesOk(total, spaces) && i < |spaces| && inner < |spaces[i].freeBits| &&
          spaces[i].freeBits[inner] != free
    requires s'.start == spaces[i].start && s'.freeBits == spaces[i].freeBits[inner := free]
    requires s'.freeCount == spaces[i].freeCount + (if free then 1 else -1)
    ensures SpacesOk(total, spaces[i := s']) && inner < SpaceSize(total, i)
    ensures spaces[i].start == i * BLOCK_COUNT_IN_SPACE
  {
    PopcountUpdate(spaces[i].freeBits, inner, free);
  }

  lemma MarkedBit(total: nat, spaces: seq<BlockSpace>, i: nat, inner: nat, free: bool, s': BlockSpace, b: nat)
    requires SpacesOk(total, spaces) && i < |spaces| && inner < |spaces[i].freeBits| &&
          spaces[i].freeBits[inner] != free
    requires s'.freeBits == spaces[i].freeBits[inner := free] && SpacesOk(total, spaces[i := s']) && b < total
    ensures var at := i * BLOCK_COUNT_IN_SPACE + inner;
            && IsFree(total, spaces[i := s'], b) == (if b == at then free else IsFree(total, spaces, b))
            && (b == at ==> IsFree(total, spaces, b) != free)
  {
    hide SpaceSize;
    InSpace(total, b);
    BlockAt(total, i, inner);
    if b / BLOCK_COUNT_IN_SPACE == i { assert b == i * BLOCK_COUNT_IN_SPACE + b % BLOCK_COUNT_IN_SPACE; }
  }

  lemma NothingQueued(total: nat, spaces: seq<BlockSpace>, queue: seq<nat>)
    requires SpacesOk(total, spaces) && Queued(spaces, queue)
    ensures queue == [] <==> LiveBlocks(total, spaces) == Range(total)
  {
    hide SpacesOk, IsFree;
    if queue == [] {
      forall b | b in Range(total)
        ensures !IsFree(total, spaces, b)
      {
        NoneQueued(total, spaces, b);
      }
    } else {
      var b := QueuedHasFree(total, spaces, queue);
    }
  }

  lemma NoneQueued(total: nat, spaces: seq<BlockSpace>, b: nat)
    requires SpacesOk(total, spaces) && Queued(spaces, []) && b < total
    ensures !IsFree(total, spaces, b)
  {
    InSpace(total, b);
    var none: seq<nat> := [];
    assert b / BLOCK_COUNT_IN_SPACE !in none;
    PopcountZero(spaces[b / BLOCK_COUNT_IN_SPACE].freeBits);
  }

  lemma QueuedHasFree(total: nat, spaces: seq<BlockSpace>, queue: seq<nat>) returns (b: nat)
    requires SpacesOk(total, spaces) && Queued(spaces, queue) && queue != []
    ensures b in Range(total) && IsFree(total, spaces, b)
  {
    var i := queue[0];
    assert i in queue;
    PopcountZero(spaces[i].freeBits);
    var inner: nat :| inner < |spaces[i].freeBits| && spaces[i].freeBits[inner];
    BlockAt(total, i, inner);
    b := i * BLOCK_COUNT_IN_SPACE + inner;
  }

  class CacheDir {
    const quota: nat
    const blockSize: nat
    const total: nat
    const blockSpaces: array<BlockSpace>
    var freeSpaceList: seq<nat>

    ghost predicate Valid()
      reads this, blockSpaces
    {
      && blockSize > 0 && total == quota / blockSize
      && SpacesOk(total, blockSpaces[..]) && Queued(blockSpaces[..], freeSpaceList)
    }

    ghost function Live(): (r: set<nat>)
      requires Valid()
      reads this, blockSpaces
      ensures r <= Range(total)
    {
      LiveBlocks(total, blockSpaces[..])
    }

    constructor (quota: nat, blockSize: nat)
      requires blockSize > 0
      ensures Valid() && fresh(blockSpaces) && Live() == {}
      ensures this.quota == quota && this.blockSize == blockSize
    {
      this.quota, this.blockSize, total := quota, blockSize, quota / blockSize;
      var n := quota / blockSize;
      var spaces := new BlockSpace[n / BLOCK_COUNT_IN_SPACE + 1](_ => BlockSpace(0, [], 0));
      blockSpaces := spaces;
      freeSpaceList := [];
      new;
      InitFreeSpaceList();
    }

    /** Full spaces, and a short one if any blocks remain. */
    method InitFreeSpaceList()
      requires blockSize > 0 && total == quota / blockSize && freeSpaceList == []
      requires blockSpaces.Length == total / BLOCK_COUNT_IN_SPACE + 1
      requires forall i :: 0 <= i < blockSpaces.Length ==> blockSpaces[i] == BlockSpace(0, [], 0)
      modifies `freeSpaceList, blockSpaces
      ensures Valid() && Live() == {}
    {
      hide SpacesOk, Queued, LiveBlocks;
      var spaceCount := total / BLOCK_COUNT_IN_SPACE;
      for i := 0 to spaceCount
        invariant forall k :: 0 <= k < i ==> blockSpaces[k] == NewSpace(total, k)
        invariant forall k :: i <= k < blockSpaces.Length ==> blockSpaces[k] == BlockSpace(0, [], 0)
        invariant freeSpaceList == Indices(i)
      {
        var freeBits := seq(BLOCK_COUNT_IN_SPACE, _ => true);
        blockSpaces[i] := BlockSpace(i * BLOCK_COUNT_IN_SPACE, freeBits, BLOCK_COUNT_IN_SPACE);
        assert SpaceSize(total, i) == BLOCK_COUNT_IN_SPACE;
        freeSpaceList := freeSpaceList + [i];
      }
      var curBlockCount := spaceCount * BLOCK_COUNT_IN_SPACE;
      if curBlockCount < total {
        var remainBlocks := total - curBlockCount;
        blockSpaces[spaceCount] := BlockSpace(curBlockCount, seq(remainBlocks, _ => true), remainBlocks);
        freeSpaceList := freeSpaceList + [spaceCount];
      }
      NewSpaces(total, blockSpaces[..], freeSpaceList);
    }

    /** The first free block of the space at the head of the queue; none, only if all are given out. */
    method AllocBlock() returns (index: int)
      requires Valid()
      modifies `freeSpaceList, blockSpaces
      ensures Valid()
      ensures index == -1 <==> old(Live()) == Range(total)
      ensures index == -1 ==> Live() == old(Live())
      ensures index != -1 ==> 0 <= index < total && index !in old(Live()) && Live() == old(Live()) + {index}
      ensures index != -1 ==> old(freeSpaceList) != [] && index / BLOCK_COUNT_IN_SPACE == old(freeSpaceList)[0]
    {
      hide SpacesOk, LiveBlocks, Queued;
      ghost var spaces := blockSpaces[..];
      NothingQueued(total, spaces, freeSpaceList);
      if freeSpaceList == [] {
        return -1;
      }
      var front := freeSpaceList[0];
      HeadHasFree(total, spaces, freeSpaceList);
      var space := blockSpaces[front];
      var inner := FindFirst(space.freeBits);
      var space' := space.(freeBits := space.freeBits[inner := false], freeCount := space.freeCount - 1);
      MarkOne(total, spaces, front, inner, false, space');
      QueueTake(spaces, freeSpaceList, space');
      blockSpaces[front] := space';
      assert blockSpaces[..] == spaces[front := space'];
      if space'.freeCount == 0 {
        freeSpaceList := freeSpaceList[1..];
      }
      return space.start + inner;
    }

    /** A block that is given out is given back. */
    method FreeBlock(b: nat)
      requires Valid() && b in Live()
      modifies `freeSpaceList, blockSpaces
      ensures Valid() && Live() == old(Live()) - {b}
    {
      hide SpacesOk, Queued;
      var spaceIndex := b / BLOCK_COUNT_IN_SPACE;
      ghost var spaces := blockSpaces[..];
      LiveInSpace(total, spaces, b);
      var space := blockSpaces[spaceIndex];
      var inner := b - space.start;
      var space' := space.(freeBits := space.freeBits[inner := true], freeCount := space.freeCount + 1);
      MarkOne(total, spaces, spaceIndex, inner, true, space');
      QueueGive(spaces, freeSpaceList, spaceIndex, space');
      blockSpaces[spaceIndex] := space';
      assert blockSpaces[..] == spaces[spaceIndex := space'];
      if space'.freeCount == 1 {
        freeSpaceList := freeSpaceList + [spaceIndex];
      }
    }
  }

  lemma LiveInSpace(total: nat, spaces: seq<BlockSpace>, b: nat)
    requires SpacesOk(total, spaces) && b in LiveBlocks(total, spaces)
    ensures var i := b / BLOCK_COUNT_IN_SPACE;
            i < |spaces| && spaces[i].start <= b && b - spaces[i].start < |spaces[i].freeBits| &&
                  !spaces[i].freeBits[b - spaces[i].start]
  {
    InSpace(total, b);
  }

  lemma HeadHasFree(total: nat, spaces: seq<BlockSpace>, queue: seq<nat>)
    requires SpacesOk(total, spaces) && Queued(spaces, queue) && queue != []
    ensures queue[0] < |spaces| && 0 < spaces[queue[0]].freeCount == Popcount(spaces[queue[0]].freeBits)
  {
    assert queue[0] in queue;
  }

  /** The head of the queue leaves it with its last free block. */
  lemma QueueTake(spaces: seq<BlockSpace>, queue: seq<nat>, s': BlockSpace)
    requires Queued(spaces, queue) && queue != [] && queue[0] < |spaces|
    requires s'.freeCount + 1 == spaces[queue[0]].freeCount
    ensures Queued(spaces[queue[0] := s'], if s'.freeCount == 0 then queue[1..] else queue)
  {
    var spaces', queue' := spaces[queue[0] := s'], if s'.freeCount == 0 then queue[1..] else queue;
    assert queue == [queue[0]] + queue[1..];
    forall i
      ensures i in queue' <==> 0 <= i < |spaces'| && spaces'[i].freeCount > 0
    {
      assert i in queue <==> i == queue[0] || i in queue[1..];
    }
  }

  /** A space comes to the queue's end with its first free block. */
  lemma QueueGive(spaces: seq<BlockSpace>, queue: seq<nat>, i: nat, s': BlockSpace)
    requires Queued(spaces, queue) && i < |spaces| && s'.freeCount == spaces[i].freeCount + 1
    ensures Queued(spaces[i := s'], if s'.freeCount == 1 then queue + [i] else queue)
  {}

  // ----- The start -----------------------------------------------------------------------------------------

  ghost function NewSpace(total: nat, i: nat): BlockSpace {
    if SpaceSize(total, i) == 0 then BlockSpace(0, [], 0)
    else BlockSpace(i * BLOCK_COUNT_IN_SPACE, seq(SpaceSize(total, i), _ => true), SpaceSize(total, i))
  }

  ghost function Indices(n: nat): (r: seq<nat>)
    ensures |r| == n && forall i :: 0 <= i < n ==> r[i] == i
  {
    seq(n, i => i)
  }

  lemma NewSpaces(total: nat, spaces: seq<BlockSpace>, queue: seq<nat>)
    requires |spaces| == total / BLOCK_COUNT_IN_SPACE + 1
    requires forall i :: 0 <= i < |spaces| ==> spaces[i] == NewSpace(total, i)
    requires queue == Indices(if total % BLOCK_COUNT_IN_SPACE > 0 then |spaces| else |spaces| - 1)
    ensures SpacesOk(total, spaces) && Queued(spaces, queue) && LiveBlocks(total, spaces) == {}
  {
    forall i: nat | i < |spaces|
      ensures SpaceOk(total, i, spaces[i])
    {
      PopcountAll(SpaceSize(total, i));
    }
    forall i | 0 <= i < |queue|
      ensures i in queue
    {
      assert queue[i] == i;
    }
    forall b | b in Range(total)
      ensures IsFree(total, spaces, b)
    {
      InSpace(total, b);
    }
  }
}
