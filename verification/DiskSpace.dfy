/** The blocks of all cache directories: a directory for a new block is proposed by the router. */
module DiskSpace {
  import opened Common
  import opened DirRouter
  import opened CacheDirs

  /** The blocks given out, directory by directory. */
  type Lives = seq<set<nat>>

  function CountLive(lives: Lives): nat {
    if lives == [] then 0 else CountLive(lives[..|lives| - 1]) + |lives[|lives| - 1]|
  }

  lemma {:induction false} CountLiveUpdate(lives: Lives, i: nat, s: set<nat>)
    requires i < |lives|
    ensures CountLive(lives[i := s]) == CountLive(lives) - |lives[i]| + |s|
  {
    var n := |lives| - 1;
    if i < n {
      CountLiveUpdate(lives[..n], i, s);
      assert lives[i := s][..n] == lives[..n][i := s];
    } else {
      assert lives[i := s][..n] == lives[..n];
    }
  }

  function EnabledCount(ds: Dirs): nat {
    if ds == [] then 0 else EnabledCount(ds[..|ds| - 1]) + (if ds[|ds| - 1].enabled then 1 else 0)
  }

  lemma {:induction false} EnabledSame(ds: Dirs, ds': Dirs)
    requires SameDirs(ds, ds')
    ensures EnabledCount(ds) == EnabledCount(ds')
  {
    if ds != [] { EnabledSame(ds[..|ds| - 1], ds'[..|ds| - 1]); }
  }

  lemma {:induction false} EnabledLess(ds: Dirs, i: nat, d: DirWeight)
    requires i < |ds| && ds[i].enabled && !d.enabled
    ensures EnabledCount(ds[i := d]) < EnabledCount(ds)
  {
    var n := |ds| - 1;
    if i < n {
      EnabledLess(ds[..n], i, d);
      assert ds[i := d][..n] == ds[..n][i := d];
    } else {
      assert ds[i := d][..n] == ds[..n];
    }
  }

  /** A directory is only ever passed over when it has nothing to give. */
  ghost predicate DisabledIsFull(ds: Dirs, lives: Lives, totals: seq<nat>) {
    && |ds| == |lives| == |totals|
    && forall i :: 0 <= i < |ds| ==> ds[i].enabled || lives[i] == Range(totals[i])
  }

  ghost predicate AllFull(lives: Lives, totals: seq<nat>) {
    |lives| == |totals| && forall i :: 0 <= i < |lives| ==> lives[i] == Range(totals[i])
  }

  function Capacity(totals: seq<nat>): nat {
    if totals == [] then 0 else Capacity(totals[..|totals| - 1]) + totals[|totals| - 1]
  }

  lemma {:induction false} LiveWithinCapacity(lives: Lives, totals: seq<nat>)
    requires |lives| == |totals| && forall i :: 0 <= i < |lives| ==> lives[i] <= Range(totals[i])
    ensures CountLive(lives) <= Capacity(totals)
    ensures CountLive(lives) == Capacity(totals) <==> AllFull(lives, totals)
  {
    if lives != [] {
      var n := |lives| - 1;
      LiveWithinCapacity(lives[..n], totals[..n]);
      SubsetSize(lives[n], totals[n]);
      FullSplit(lives, totals, n);
    }
  }

  lemma FullSplit(lives: Lives, totals: seq<nat>, n: nat)
    requires |lives| == |totals| == n + 1
    ensures AllFull(lives, totals) <==> AllFull(lives[..n], totals[..n]) && lives[n] == Range(totals[n])
  {
    hide Range;
  }

  lemma SubsetSize(a: set<nat>, total: nat)
    requires a <= Range(total)
    ensures |a| <= total && (|a| == total <==> a == Range(total))
  {
    assert |Range(total) - a| == |Range(total)| - |a|;
    if |a| == total { SubsetOfEqualSize(a, Range(total)); }
  }

  lemma OneMore(lives: Lives, totals: seq<nat>, total: nat)
    ensures CountLive(lives + [{}]) == CountLive(lives) && Capacity(totals + [total]) == Capacity(totals) + total
  {
    assert (lives + [{}])[..|lives|] == lives && (totals + [total])[..|totals|] == totals;
  }

  /** What the manager's numbers say of the blocks given out. */
  datatype Books = Books(blockSize: nat, totals: seq<nat>, lives: Lives, quota: nat, used: int) {
    ghost predicate Balanced(ds: Dirs) {
      && DisabledIsFull(ds, lives, totals)
      && (forall i :: 0 <= i < |lives| ==> lives[i] <= Range(totals[i]))
      && used == blockSize * CountLive(lives)
      && blockSize * Capacity(totals) <= quota
    }

    function Give(i: nat, b: nat): Books
      requires i < |lives|
    {
      this.(lives := lives[i := lives[i] + {b}], used := used + blockSize)
    }

    function TakeBack(i: nat, b: nat): Books
      requires i < |lives|
    {
      this.(lives := lives[i := lives[i] - {b}], used := used - blockSize)
    }

    function BlocksIn(bytes: nat): nat {
      if blockSize == 0 then 0 else bytes / blockSize
    }

    function Join(more: nat): Books {
      this.(totals := totals + [BlocksIn(more)], lives := lives + [{}], quota := quota + more)
    }

    lemma GiveKeeps(ds: Dirs, i: nat, b: nat)
      requires Balanced(ds) && i < |lives| && b !in lives[i] && b < totals[i]
      ensures Give(i, b).Balanced(ds) && !AllFull(lives, totals)
    {
      hide Range, CountLive, Capacity;
      CountLiveUpdate(lives, i, lives[i] + {b});
      Distribute(blockSize, CountLive(lives), 1);
      assert b in Range(totals[i]);
    }

    lemma TakeBackKeeps(ds: Dirs, i: nat, b: nat, ds': Dirs)
      requires Balanced(ds) && i < |lives| && b in lives[i]
      requires Next(ds, Gained(i, blockSize), ds')
      ensures TakeBack(i, b).Balanced(ds')
    {
      hide Range, CountLive, Capacity;
      CountLiveUpdate(lives, i, lives[i] - {b});
      Distribute(blockSize, CountLive(lives), -1);
    }

    lemma JoinKeeps(ds: Dirs, more: nat, ds': Dirs)
      requires Balanced(ds) && Next(ds, Joined(more), ds')
      ensures Join(more).Balanced(ds')
    {
      hide Range, CountLive, Capacity, BlocksIn;
      var total := BlocksIn(more);
      WholeBlocks(more);
      OneMore(lives, totals, total);
      Distribute(blockSize, Capacity(totals), total);
    }

    lemma WholeBlocks(bytes: nat)
      ensures blockSize * BlocksIn(bytes) <= bytes
    {}

    /** What is used never exceeds the quota, and comes to the blocks there are only when all are full. */
    lemma WithinQuota(ds: Dirs)
      requires Balanced(ds) && blockSize > 0
      ensures 0 <= used <= quota
      ensures used == blockSize * Capacity(totals) <==> AllFull(lives, totals)
    {
      hide Range, CountLive, Capacity, AllFull;
      LiveWithinCapacity(lives, totals);
      MulMono(blockSize, CountLive(lives), Capacity(totals));
      if CountLive(lives) < Capacity(totals) {
        MulMono(blockSize, CountLive(lives) + 1, Capacity(totals));
        Distribute(blockSize, CountLive(lives), 1);
      }
    }
  }

  lemma PickKeepsBalance(books: Books, ds: Dirs, e: Event, ds': Dirs)
    requires books.Balanced(ds) && Next(ds, e, ds') && (e.Picked? || e.Full?)
    ensures books.Balanced(ds') && EnabledCount(ds') == EnabledCount(ds) && |ds'| == |ds|
    ensures e.Picked? ==> e.i < |ds| && ds'[e.i].enabled
    ensures e.Full? ==> AllFull(books.lives, books.totals)
  {
    if e.Picked? { EnabledSame(ds, ds'); }
  }

  lemma RunBegins(ds: Dirs)
    ensures Run([ds], Refusals([]))
  {}

  lemma RunGoesOn(states: seq<Dirs>, refused: seq<nat>, e: Event, ds: Dirs)
    requires Run(states, Refusals(refused)) && Next(states[|states| - 1], e, ds)
    ensures Run(states + [ds], Refusals(refused) + [e])
  {
    RunExtends(states, Refusals(refused), e, ds);
  }

  lemma DisableKeepsBalance(books: Books, ds: Dirs, i: nat, ds': Dirs)
    requires books.Balanced(ds) && Next(ds, Disabled(i), ds') && ds[i].enabled &&
          books.lives[i] == Range(books.totals[i])
    ensures books.Balanced(ds') && EnabledCount(ds') < EnabledCount(ds)
  {
    EnabledLess(ds, i, ds'[i]);
  }

  class DiskSpaceManager {
    const blockSize: nat
    const router: CacheDirRouter
    var cacheDirs: seq<CacheDir>
    var quotaBytes: nat
    var usedBytes: int
    ghost var lives: Lives
    ghost var totals: seq<nat>

    ghost function DirParts(): set<object>
      reads `cacheDirs
    {
      (set d: CacheDir | d in cacheDirs :: d as object) + (set d: CacheDir | d in cacheDirs :: d.blockSpaces as object)
    }

    /** The directories, and all that belongs to them, are different objects, and have given out just
        the blocks in `lives`. */
    ghost predicate DirsOk()
      reads `cacheDirs, `lives, `totals, DirParts()
    {
      && blockSize > 0 && |cacheDirs| == |lives| == |totals|
      && (forall i, j :: 0 <= i < j < |cacheDirs| ==>
            cacheDirs[i] != cacheDirs[j] && cacheDirs[i].blockSpaces != cacheDirs[j].blockSpaces)
      && forall i :: 0 <= i < |cacheDirs| ==>
           && cacheDirs[i].Valid() && cacheDirs[i].Live() == lives[i]
           && cacheDirs[i].blockSize == blockSize && cacheDirs[i].total == totals[i]
    }

    ghost function TheBooks(): Books
      reads this
    {
      Books(blockSize, totals, lives, quotaBytes, usedBytes)
    }

    ghost predicate Valid()
      reads this, router, DirParts()
    {
      DirsOk() && TheBooks().Balanced(router.dirs)
    }

    constructor (blockSize: nat)
      requires blockSize > 0
      ensures Valid() && cacheDirs == [] && quotaBytes == 0 && this.blockSize == blockSize
      ensures fresh(router)
    {
      this.blockSize := blockSize;
      router := new CacheDirRouter();
      cacheDirs, quotaBytes, usedBytes := [], 0, 0;
      lives, totals := [], [];
    }

    method AddCacheDir(quota: nat)
      requires Valid()
      modifies this, router
      ensures Valid() && TheBooks() == old(TheBooks()).Join(quota)
      ensures lives == old(lives) + [{}] && totals == old(totals) + [quota / blockSize]
      ensures quotaBytes == old(quotaBytes) + quota && usedBytes == old(usedBytes)
      ensures router.dirs == old(router.dirs) + [DirWeight(quota, quota, true)]
      ensures fresh(DirParts() - old(DirParts()))
    {
      hide Books.Balanced, CacheDir.Valid, CacheDir.Live, Range;
      ghost var books, ds := TheBooks(), router.dirs;
      router.AddDir(quota);
      books.JoinKeeps(ds, quota, router.dirs);
      var dir := new CacheDir(quota, blockSize);
      cacheDirs := cacheDirs + [dir];
      lives, totals := lives + [{}], totals + [dir.total];
      quotaBytes := quotaBytes + quota;
    }

    method AllocFrom(i: nat) returns (index: int)
      requires DirsOk() && i < |cacheDirs|
      modifies `lives, cacheDirs[i], cacheDirs[i].blockSpaces
      ensures DirsOk()
      ensures index == -1 ==> lives == old(lives) && lives[i] == Range(totals[i])
      ensures index != -1 ==> 0 <= index < totals[i] && index !in old(lives)[i]
      ensures index != -1 ==> lives == old(lives)[i := old(lives)[i] + {index}]
    {
      hide CacheDir.Valid, CacheDir.Live, Range;
      index := cacheDirs[i].AllocBlock();
      if index != -1 {
        lives := lives[i := lives[i] + {index}];
      }
    }

    method FreeIn(i: nat, b: nat)
      requires DirsOk() && i < |cacheDirs| && b in lives[i]
      modifies `lives, cacheDirs[i], cacheDirs[i].blockSpaces
      ensures DirsOk() && lives == old(lives)[i := old(lives)[i] - {b}]
    {
      hide CacheDir.Valid, CacheDir.Live, Range;
      cacheDirs[i].FreeBlock(b);
      lives := lives[i := lives[i] - {b}];
    }

    /** One proposal of the router, if it has one: taken up, or refused by a full directory, which is then
        disabled. */
    method Propose() returns (next: int, index: int, ghost mid: Dirs)
      requires Valid()
      modifies `lives, `usedBytes, router, DirParts()
      ensures Valid() && -1 <= next < |lives| == |totals| == |old(lives)|
      ensures Next(old(router.dirs), if next == -1 then Full else Picked(next), mid)
      ensures next == -1 ==> AllFull(old(lives), totals) && mid == router.dirs
      ensures next == -1 || index == -1 ==> TheBooks() == old(TheBooks())
      ensures next != -1 && index != -1 ==>
                && 0 <= index < totals[next] && index !in old(lives)[next] && mid == router.dirs
                && TheBooks() == old(TheBooks()).Give(next, index) && !AllFull(old(lives), totals)
      ensures next != -1 && index == -1 ==>
                && lives[next] == Range(totals[next]) && Next(mid, Disabled(next), router.dirs)
                && EnabledCount(router.dirs) < EnabledCount(old(router.dirs))
    {
      hide Books.Balanced, DirsOk, AllFull, Next, Range;
      RouterKnows();
      ghost var books, ds := TheBooks(), router.dirs;
      next := router.NextDirIndex();
      mid, index := router.dirs, -1;
      PickKeepsBalance(books, ds, if next == -1 then Full else Picked(next), mid);
      if next == -1 {
        return;
      }
      PartOf(next);
      index := AllocFrom(next);
      if index != -1 {
        usedBytes := usedBytes + blockSize;
        books.GiveKeeps(router.dirs, next, index);
      } else {
        router.DisableDir(next);
        DisableKeepsBalance(books, mid, next, router.dirs);
      }
    }

    /** A block that was not given out before, in the first directory the router proposes that has one;
        or none, if and only if all directories are full. */
    method AllocBlock()
      returns (ok: bool, dirIndex: nat, blockIndex: nat, ghost states: seq<Dirs>, ghost refused: seq<nat>)
      requires Valid()
      modifies `lives, `usedBytes, router, DirParts()
      ensures Valid()
      ensures !ok <==> AllFull(old(lives), totals)
      ensures !ok ==> TheBooks() == old(TheBooks())
      ensures ok ==> dirIndex < |lives| && blockIndex < totals[dirIndex] && blockIndex !in old(lives)[dirIndex]
      ensures ok ==> TheBooks() == old(TheBooks()).Give(dirIndex, blockIndex)
      ensures ok ==> usedBytes == old(usedBytes) + blockSize
      ensures ok ==> lives == old(lives)[dirIndex := old(lives)[dirIndex] + {blockIndex}]
      ensures Run(states, Refusals(refused) + [if ok then Picked(dirIndex) else Full])
      ensures states[0] == old(router.dirs) && states[|states| - 1] == router.dirs
      ensures forall i :: i in refused ==> i < |old(lives)| && i < |totals| && old(lives)[i] == Range(totals[i])
    {
      hide Books.Balanced, DirsOk, AllFull, Next, Range, Run, Refusals;
      dirIndex, blockIndex := 0, 0;
      states, refused := [router.dirs], [];
      RunBegins(router.dirs);
      while true
        invariant Valid() && TheBooks() == old(TheBooks())
        invariant states != [] && states[0] == old(router.dirs) && states[|states| - 1] == router.dirs
        invariant Run(states, Refusals(refused))
        invariant forall i :: i in refused ==> i < |old(lives)| && i < |totals| && old(lives)[i] == Range(totals[i])
        decreases EnabledCount(router.dirs)
      {
        var next, index, mid := Propose();
        if next == -1 || index != -1 {
          RunGoesOn(states, refused, if next == -1 then Full else Picked(next), mid);
          ok := next != -1;
          if ok {
            dirIndex, blockIndex := next, index;
          }
          states := states + [mid];
          return;
        }
        RefusalExtends(states, refused, next, mid, router.dirs);
        states, refused := states + [mid, router.dirs], refused + [next];
      }
    }

    /** A block that was given out is given back, and its directory is proposed again. */
    method FreeBlock(dirIndex: nat, blockIndex: nat)
      requires Valid() && dirIndex < |lives| && blockIndex in lives[dirIndex]
      modifies `lives, `usedBytes, router, DirParts()
      ensures Valid() && TheBooks() == old(TheBooks()).TakeBack(dirIndex, blockIndex)
      ensures usedBytes == old(usedBytes) - blockSize
      ensures lives == old(lives)[dirIndex := old(lives)[dirIndex] - {blockIndex}]
      ensures dirIndex < |old(router.dirs)| && Next(old(router.dirs), Gained(dirIndex, blockSize), router.dirs)
      ensures var d := old(router.dirs)[dirIndex];
              router.dirs == old(router.dirs)[dirIndex := DirWeight(d.weight, d.cur + blockSize, true)]
    {
      hide Books.Balanced, CacheDir.Valid, CacheDir.Live, Range;
      ghost var books, ds := TheBooks(), router.dirs;
      RouterKnows();
      PartOf(dirIndex);
      FreeIn(dirIndex, blockIndex);
      usedBytes := usedBytes - blockSize;
      router.AddDirWeight(dirIndex, blockSize);
      books.TakeBackKeeps(ds, dirIndex, blockIndex, router.dirs);
    }

    lemma PartOf(i: nat)
      requires i < |cacheDirs|
      ensures cacheDirs[i] in DirParts() && cacheDirs[i].blockSpaces in DirParts()
    {
      var d := cacheDirs[i];
      assert d in cacheDirs;
    }

    lemma RouterKnows()
      requires Valid()
      ensures |router.dirs| == |cacheDirs| == |lives| == |totals|
    {}
  }
}
