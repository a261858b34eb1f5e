/** What the open-addressing table keeps, stated on the ring of control bytes and the row of slots.

    `c` is the ring of control bytes (its last byte is the sentinel), `s` the slots, `hash` any
    function.  A slot is meaningful when its control byte is full, that is, holds seven bits of the
    hash.  The one invariant lookup rests on: no full slot is preceded, in its own probe order,
    by a window that has an empty byte. */
module OpenTable {
  import opened Common
  import opened ProbeSequence

  const EMPTY := -128
  const DELETED := -2
  const SENTINEL := -1

  predicate IsEmpty(b: int) { b == EMPTY }

  predicate IsFull(b: int) { b >= 0 }

  predicate IsDeleted(b: int) { b == DELETED }

  predicate IsEmptyOrDeleted(b: int) { b < SENTINEL }

  function H1(h: nat): nat { h / 128 }

  function H2(h: nat): nat { h % 128 }

  // ----- Bit-mask queries on a group of bytes -------------------------------------------------

  /** Index of the lowest byte that is empty or deleted; the group's length when there is none. */
  function LowestEmptyOrDeleted(g: seq<int>): (r: nat)
    ensures r <= |g| && (r < |g| ==> IsEmptyOrDeleted(g[r]))
    ensures forall t :: 0 <= t < r ==> !IsEmptyOrDeleted(g[t])
  {
    if g == [] || IsEmptyOrDeleted(g[0]) then 0
    else
      var r := LowestEmptyOrDeleted(g[1..]);
      assert forall t :: 0 < t < r + 1 ==> g[t] == g[1..][t - 1];
      r + 1
  }

  /** Bytes before the first empty one (TrailingZeros of MatchEmpty). */
  function TrailingNonEmpty(g: seq<int>): (r: nat)
    ensures r <= |g| && (r < |g| ==> g[r] == EMPTY)
    ensures r == |g| <==> EMPTY !in g
  {
    if g == [] || g[0] == EMPTY then 0 else 1 + TrailingNonEmpty(g[1..])
  }

  /** Bytes after the last empty one (LeadingZeros of MatchEmpty). */
  function LeadingNonEmpty(g: seq<int>): (r: nat)
    ensures r <= |g| && (r < |g| ==> g[|g| - 1 - r] == EMPTY)
    ensures r == |g| <==> EMPTY !in g
  {
    if g == [] || g[|g| - 1] == EMPTY then 0 else 1 + LeadingNonEmpty(g[..|g| - 1])
  }

  // ----- Shape ----------------------------------------------------------------------------------

  ghost predicate Bytes(geo: Geometry, c: seq<int>) {
    && geo.Valid()
    && |c| == geo.n
    && c[|c| - 1] == SENTINEL
    && forall p :: 0 <= p < |c| - 1 ==> c[p] == EMPTY || c[p] == DELETED || 0 <= c[p] < 128
  }

  /** The bytes a group load sees at an offset. */
  function Window(geo: Geometry, c: seq<int>, off: nat): (g: seq<int>)
    requires geo.Valid() && |c| == geo.n
    ensures |g| == geo.w
  {
    seq(geo.w, t requires 0 <= t => c[(off + t) % geo.n])
  }

  lemma WindowAt(geo: Geometry, off: nat, t: nat)
    requires geo.Valid() && off < geo.n && t < geo.w
    ensures 0 <= (off + t) % geo.n < geo.n && geo.InWindow((off + t) % geo.n, off)
    ensures ((off + t) % geo.n - off) % geo.n == t
  {
    if off + t < geo.n {
      ModUnique(off + t, geo.n, 0, off + t);
      ModUnique(t, geo.n, 0, t);
    } else {
      ModUnique(off + t, geo.n, 1, off + t - geo.n);
      ModUnique(t - geo.n, geo.n, -1, t);
    }
  }

  lemma WindowIndex(geo: Geometry, off: nat, p: nat) returns (t: nat)
    requires geo.Valid() && off < geo.n && p < geo.n && geo.InWindow(p, off)
    ensures t < geo.w && p == (off + t) % geo.n && t == (p - off) % geo.n
  {
    t := (p - off) % geo.n;
    if p >= off {
      ModUnique(p - off, geo.n, 0, p - off);
      ModUnique(off + t, geo.n, 0, p);
    } else {
      ModUnique(p - off, geo.n, -1, p - off + geo.n);
      ModUnique(off + t, geo.n, 1, p);
    }
  }

  // ----- The lookup invariant ---------------------------------------------------------------------

  ghost predicate NoEmptyIn(geo: Geometry, c: seq<int>, off: nat)
    requires geo.Valid() && |c| == geo.n
  {
    forall p :: 0 <= p < |c| && geo.InWindow(p, off) ==> c[p] != EMPTY
  }

  ghost predicate AllFullIn(geo: Geometry, c: seq<int>, off: nat)
    requires geo.Valid() && |c| == geo.n
  {
    forall p :: 0 <= p < |c| && geo.InWindow(p, off) ==> !IsEmptyOrDeleted(c[p])
  }

  /** The windows probed before the one that holds p have no empty byte. */
  ghost predicate Reached(geo: Geometry, c: seq<int>, start: nat, p: nat)
    requires geo.Valid() && |c| == geo.n
  {
    forall i :: 0 <= i < geo.ProbeOf(start, p) ==> NoEmptyIn(geo, c, geo.Probe(start, i))
  }

  /** The same windows hold full bytes (and the sentinel) only. */
  ghost predicate Settled(geo: Geometry, c: seq<int>, start: nat, p: nat)
    requires geo.Valid() && |c| == geo.n
  {
    forall i :: 0 <= i < geo.ProbeOf(start, p) ==> AllFullIn(geo, c, geo.Probe(start, i))
  }

  lemma SettledIsReached(geo: Geometry, c: seq<int>, start: nat, p: nat)
    requires geo.Valid() && |c| == geo.n && Settled(geo, c, start, p)
    ensures Reached(geo, c, start, p)
  {
    forall i | 0 <= i < geo.ProbeOf(start, p)
      ensures NoEmptyIn(geo, c, geo.Probe(start, i))
    {
      assert AllFullIn(geo, c, geo.Probe(start, i));
    }
  }

  ghost predicate SlotOk<K, V>(geo: Geometry, hash: K -> nat, c: seq<int>, s: seq<(K, V)>, p: nat)
    requires geo.Valid() && |c| == geo.n && |s| == |c| - 1 && p < |s|
  {
    && c[p] == H2(hash(s[p].0))
    && Reached(geo, c, H1(hash(s[p].0)), p)
  }

  ghost predicate Distinct<K, V>(c: seq<int>, s: seq<(K, V)>)
    requires |c| == |s| + 1
  {
    forall p, q :: 0 <= p < |s| && 0 <= q < |s| && IsFull(c[p]) && IsFull(c[q]) && s[p].0 == s[q].0 ==> p == q
  }

  ghost predicate TableInv<K, V>(geo: Geometry, hash: K -> nat, c: seq<int>, s: seq<(K, V)>) {
    && Bytes(geo, c)
    && |s| == |c| - 1
    && (forall p :: 0 <= p < |s| && IsFull(c[p]) ==> SlotOk(geo, hash, c, s, p))
    && Distinct(c, s)
  }

  /** The table's meaning: the finite map its full slots spell out. */
  ghost predicate Holds<K, V>(c: seq<int>, s: seq<(K, V)>, m: map<K, V>)
    requires |c| == |s| + 1
  {
    && (forall p :: 0 <= p < |s| && IsFull(c[p]) ==> s[p].0 in m && m[s[p].0] == s[p].1)
    && (forall k :: k in m ==> exists p :: 0 <= p < |s| && IsFull(c[p]) && s[p].0 == k)
  }

  // ----- Counting ---------------------------------------------------------------------------------

  ghost function Full(c: seq<int>): set<nat> {
    set p: nat | p < |c| && IsFull(c[p])
  }

  ghost function Dead(c: seq<int>): set<nat> {
    set p: nat | p < |c| && IsDeleted(c[p])
  }

  ghost function Empties(c: seq<int>): set<nat> {
    set p: nat | p < |c| && IsEmpty(c[p])
  }

  lemma CountsAdd(c: seq<int>)
    requires |c| > 0 && c[|c| - 1] == SENTINEL
    requires forall p :: 0 <= p < |c| - 1 ==> c[p] == EMPTY || c[p] == DELETED || IsFull(c[p])
    ensures |Full(c)| + |Dead(c)| + |Empties(c)| == |c| - 1
  {
    var r := Range(|c| - 1);
    assert Full(c) + Dead(c) + Empties(c) == r;
    UnionCount(Full(c), Dead(c));
    UnionCount(Full(c) + Dead(c), Empties(c));
  }

  lemma SetByteDead(c: seq<int>, p: nat, b: int)
    requires p < |c|
    ensures |Dead(c[p := b])| ==
            |Dead(c)| - (if c[p] == DELETED then 1 else 0) + (if b == DELETED then 1 else 0)
  {
    var rest := Dead(c) - {p};
    assert Dead(c[p := b]) == if b == DELETED then rest + {p} else rest;
    assert Dead(c) == if c[p] == DELETED then rest + {p} else rest;
  }

  lemma UnionCount<T>(a: set<T>, b: set<T>)
    requires a !! b
    ensures |a + b| == |a| + |b|
  {}

  /** The slots of a table number as many as the entries of the map it holds. */
  lemma FullCount<K, V>(c: seq<int>, s: seq<(K, V)>, m: map<K, V>)
    requires |c| == |s| + 1 && !IsFull(c[|s|]) && Distinct(c, s) && Holds(c, s, m)
    ensures |Full(c)| == |m|
  {
    forall k | k in m.Keys
      ensures exists p :: p in Full(c) && s[p].0 == k
    {
      var p :| 0 <= p < |s| && IsFull(c[p]) && s[p].0 == k;
      assert p in Full(c);
    }
    Bijection(Full(c), m.Keys, s);
  }

  lemma {:induction false} Bijection<K, V>(ps: set<nat>, ks: set<K>, s: seq<(K, V)>)
    requires forall p :: p in ps ==> p < |s| && s[p].0 in ks
    requires forall p, q :: p in ps && q in ps && s[p].0 == s[q].0 ==> p == q
    requires forall k :: k in ks ==> exists p :: p in ps && s[p].0 == k
    ensures |ps| == |ks|
  {
    if p :| p in ps {
      forall k | k in ks - {s[p].0}
        ensures exists q :: q in ps - {p} && s[q].0 == k
      {
        var q :| q in ps && s[q].0 == k;
        assert q in ps - {p};
      }
      Bijection(ps - {p}, ks - {s[p].0}, s);
    } else {
      assert ks == {};
    }
  }

  /** phmap's maximum load of seven eighths. */
  function CapacityToGrowth(w: nat, capacity: nat): nat {
    if w == 8 && capacity == 7 then 6 else capacity - capacity / 8
  }

  lemma GrowthBelowCapacity(w: nat, capacity: nat)
    requires (w == 8 || w == 16) && capacity >= w - 1
    ensures 0 < CapacityToGrowth(w, capacity) < capacity
    ensures CapacityToGrowth(w, capacity) < CapacityToGrowth(w, 2 * capacity + 1)
  {}

  /** Doubling leaves room; so does squashing tombstones when at most half the load is in use. */
  lemma GrowthDoubles(geo: Geometry)
    requires geo.Valid()
    ensures 0 < CapacityToGrowth(geo.w, geo.n - 1)
    ensures CapacityToGrowth(geo.w, geo.n - 1) < CapacityToGrowth(geo.w, geo.Double().n - 1)
  {
    GrowthBelowCapacity(geo.w, geo.n - 1);
  }

  lemma BlankTable<K, V>(geo: Geometry, hash: K -> nat, c: seq<int>, s: seq<(K, V)>)
    requires Bytes(geo, c) && |s| == |c| - 1
    requires forall p :: 0 <= p < |s| ==> c[p] == EMPTY
    ensures TableInv(geo, hash, c, s) && Holds(c, s, map[]) && Dead(c) == {}
  {}

  // ----- What one step keeps ----------------------------------------------------------------------

  /** Turning bytes full never takes a window's emptiness away from a slot that needed it gone. */
  lemma ReachedMono(geo: Geometry, c: seq<int>, c': seq<int>, start: nat, p: nat)
    requires geo.Valid() && |c| == |c'| == geo.n
    requires forall q :: 0 <= q < |c| && c'[q] == EMPTY ==> c[q] == EMPTY
    requires Reached(geo, c, start, p)
    ensures Reached(geo, c', start, p)
  {
    forall i | 0 <= i < geo.ProbeOf(start, p)
      ensures NoEmptyIn(geo, c', geo.Probe(start, i))
    {
      assert NoEmptyIn(geo, c, geo.Probe(start, i));
    }
  }

  lemma SettledMono(geo: Geometry, c: seq<int>, c': seq<int>, start: nat, p: nat)
    requires geo.Valid() && |c| == |c'| == geo.n
    requires forall q :: 0 <= q < |c| && IsEmptyOrDeleted(c'[q]) ==> IsEmptyOrDeleted(c[q])
    requires Settled(geo, c, start, p)
    ensures Settled(geo, c', start, p)
  {
    forall i | 0 <= i < geo.ProbeOf(start, p)
      ensures AllFullIn(geo, c', geo.Probe(start, i))
    {
      assert AllFullIn(geo, c, geo.Probe(start, i));
    }
  }

  /** Putting a new element where its own probe order reaches keeps the invariant. */
  lemma PlaceKeeps<K, V>(geo: Geometry, hash: K -> nat, c: seq<int>, s: seq<(K, V)>, m: map<K, V>,
                         p: nat, k: K, v: V)
    requires TableInv(geo, hash, c, s) && Holds(c, s, m)
    requires p < |s| && !IsFull(c[p]) && k !in m
    requires Reached(geo, c, H1(hash(k)), p)
    ensures TableInv(geo, hash, c[p := H2(hash(k))], s[p := (k, v)])
    ensures Holds(c[p := H2(hash(k))], s[p := (k, v)], m[k := v])
  {
    var c', s', m' := c[p := H2(hash(k))], s[p := (k, v)], m[k := v];
    forall q | 0 <= q < |s'| && IsFull(c'[q])
      ensures SlotOk(geo, hash, c', s', q)
    {
      if q != p { assert SlotOk(geo, hash, c, s, q); }
      ReachedMono(geo, c, c', H1(hash(s'[q].0)), q);
    }
    forall k' | k' in m'
      ensures exists q :: 0 <= q < |s'| && IsFull(c'[q]) && s'[q].0 == k'
    {
      if k' == k {
        assert IsFull(c'[p]);
      } else {
        var q :| 0 <= q < |s| && IsFull(c[q]) && s[q].0 == k';
        assert IsFull(c'[q]);
      }
    }
  }

  lemma HeldKey<K, V>(c: seq<int>, s: seq<(K, V)>, m: map<K, V>, p: nat)
    requires |c| == |s| + 1 && Holds(c, s, m) && p < |s| && IsFull(c[p])
    ensures s[p].0 in m && |m - {s[p].0}| == |m| - 1
  {
    assert (m - {s[p].0}).Keys == m.Keys - {s[p].0};
  }

  lemma ReplaceKeeps<K, V>(geo: Geometry, hash: K -> nat, c: seq<int>, s: seq<(K, V)>, m: map<K, V>, p: nat, v: V)
    requires TableInv(geo, hash, c, s) && Holds(c, s, m) && p < |s| && IsFull(c[p])
    ensures TableInv(geo, hash, c, s[p := (s[p].0, v)])
    ensures Holds(c, s[p := (s[p].0, v)], m[s[p].0 := v])
    ensures |m[s[p].0 := v]| == |m|
  {
    hide Holds;
    ReplaceHolds(c, s, m, p, v);
    var s' := s[p := (s[p].0, v)];
    forall q | 0 <= q < |s'| && IsFull(c[q])
      ensures SlotOk(geo, hash, c, s', q)
    {
      assert SlotOk(geo, hash, c, s, q);
    }
  }

  lemma ReplaceHolds<K, V>(c: seq<int>, s: seq<(K, V)>, m: map<K, V>, p: nat, v: V)
    requires |c| == |s| + 1 && Holds(c, s, m) && Distinct(c, s) && p < |s| && IsFull(c[p])
    ensures Holds(c, s[p := (s[p].0, v)], m[s[p].0 := v])
    ensures |m[s[p].0 := v]| == |m|
  {
    var s', m' := s[p := (s[p].0, v)], m[s[p].0 := v];
    assert m'.Keys == m.Keys;
    forall k | k in m'
      ensures exists q :: 0 <= q < |s'| && IsFull(c[q]) && s'[q].0 == k
    {
      var q :| 0 <= q < |s| && IsFull(c[q]) && s[q].0 == k;
      assert s'[q].0 == k;
    }
  }

  /** No window with p in it is free of empty bytes: p was never part of a full window. */
  ghost predicate NeverFull(geo: Geometry, c: seq<int>, p: nat)
    requires geo.Valid() && |c| == geo.n
  {
    forall off :: 0 <= off < geo.n && geo.InWindow(p, off) ==> !NoEmptyIn(geo, c, off)
  }

  /** Taking an element out keeps the invariant, provided its byte is left as a tombstone unless
      every window around it already had an empty byte. */
  lemma VacateKeeps<K, V>(geo: Geometry, hash: K -> nat, c: seq<int>, s: seq<(K, V)>, m: map<K, V>,
                          p: nat, b: int)
    requires TableInv(geo, hash, c, s) && Holds(c, s, m)
    requires p < |s| && IsFull(c[p])
    requires b == DELETED || (b == EMPTY && NeverFull(geo, c, p))
    ensures TableInv(geo, hash, c[p := b], s) && Holds(c[p := b], s, m - {s[p].0})
  {
    hide Holds;
    VacateHolds(c, s, m, p, b);
    var c' := c[p := b];
    forall q | 0 <= q < |s| && IsFull(c'[q])
      ensures SlotOk(geo, hash, c', s, q)
    {
      assert SlotOk(geo, hash, c, s, q);
      var start := H1(hash(s[q].0));
      forall i | 0 <= i < geo.ProbeOf(start, q)
        ensures NoEmptyIn(geo, c', geo.Probe(start, i))
      {
        assert NoEmptyIn(geo, c, geo.Probe(start, i));
      }
    }
  }

  lemma VacateHolds<K, V>(c: seq<int>, s: seq<(K, V)>, m: map<K, V>, p: nat, b: int)
    requires |c| == |s| + 1 && Holds(c, s, m) && Distinct(c, s) && p < |s| && IsFull(c[p]) && !IsFull(b)
    ensures Holds(c[p := b], s, m - {s[p].0})
  {
    var c', m' := c[p := b], m - {s[p].0};
    forall k | k in m'
      ensures exists q :: 0 <= q < |s| && IsFull(c'[q]) && s[q].0 == k
    {
      var q :| 0 <= q < |s| && IsFull(c[q]) && s[q].0 == k;
      assert IsFull(c'[q]);
    }
  }

  /** The slot's byte may be made b: the table is then without the slot's key, and no worse. */
  ghost predicate MayVacate<K, V>(geo: Geometry, hash: K -> nat, c: seq<int>, s: seq<(K, V)>, m: map<K, V>, p: nat,
                                  b: int) {
    && |c| == |s| + 1 && p < |s| && s[p].0 in m && |m - {s[p].0}| == |m| - 1
    && TableInv(geo, hash, c[p := b], s)
    && Holds(c[p := b], s, m - {s[p].0})
    && |Dead(c[p := b])| == |Dead(c)| + if b == EMPTY then 0 else 1
  }

  /** The test of erase_meta_only: the empty bytes nearest to p on both sides are less than a
      group apart. */
  predicate WasNeverFull(w: nat, after: seq<int>, before: seq<int>) {
    EMPTY in before && EMPTY in after && TrailingNonEmpty(after) + LeadingNonEmpty(before) < w
  }

  /** The byte erase_meta_only leaves behind. */
  function EraseByte(geo: Geometry, c: seq<int>, p: nat): int
    requires geo.Valid() && |c| == geo.n
  {
    if WasNeverFull(geo.w, Window(geo, c, p), Window(geo, c, (p - geo.w) % geo.n)) then EMPTY else DELETED
  }

  lemma EraseByteIs(geo: Geometry, c: seq<int>, p: nat)
    requires geo.Valid() && |c| == geo.n
    ensures EraseByte(geo, c, p) ==
            if WasNeverFull(geo.w, Window(geo, c, p), Window(geo, c, (p - geo.w) % geo.n)) then EMPTY else DELETED
  {}

  /** When the test succeeds, every window with p in it holds an empty byte. */
  lemma NeverFullTest(geo: Geometry, c: seq<int>, p: nat)
    requires Bytes(geo, c) && p < geo.n && EraseByte(geo, c, p) == EMPTY
    ensures NeverFull(geo, c, p)
  {
    var before := (p - geo.w) % geo.n;
    var a, b := TrailingNonEmpty(Window(geo, c, p)), LeadingNonEmpty(Window(geo, c, before));
    EmptyBefore(geo, c, p, b);
    EmptyBothSides(geo, c, p, a, b);
  }

  /** Erasing a full slot takes exactly its key out of the map. */
  lemma EraseKeeps<K, V>(geo: Geometry, hash: K -> nat, c: seq<int>, s: seq<(K, V)>, m: map<K, V>, p: nat)
    requires TableInv(geo, hash, c, s) && Holds(c, s, m)
    requires p < |s| && IsFull(c[p])
    ensures s[p].0 in m && |m - {s[p].0}| == |m| - 1
    ensures var b := EraseByte(geo, c, p);
            && TableInv(geo, hash, c[p := b], s)
            && Holds(c[p := b], s, m - {s[p].0})
            && |Dead(c[p := b])| == |Dead(c)| + if b == EMPTY then 0 else 1
  {
    hide Holds, Dead, NeverFull, Window, Distinct, SlotOk;
    var b := EraseByte(geo, c, p);
    if b == EMPTY { NeverFullTest(geo, c, p); }
    HeldKey(c, s, m, p);
    VacateKeeps(geo, hash, c, s, m, p, b);
    SetByteDead(c, p, b);
  }

  lemma EmptyBothSides(geo: Geometry, c: seq<int>, p: nat, a: nat, b: nat)
    requires Bytes(geo, c) && p < geo.n && a + b < geo.w
    requires c[(p + a) % geo.n] == EMPTY && c[(p - 1 - b) % geo.n] == EMPTY
    ensures NeverFull(geo, c, p)
  {
    forall off | 0 <= off < geo.n && geo.InWindow(p, off)
      ensures !NoEmptyIn(geo, c, off)
    {
      var d := WindowIndex(geo, off, p);
      if d + a < geo.w {
        EmptyNearby(geo, c, off, d, p, a);
      } else {
        EmptyNearby(geo, c, off, d, p, -1 - b);
      }
    }
  }

  lemma EmptyBefore(geo: Geometry, c: seq<int>, p: nat, b: nat)
    requires Bytes(geo, c) && b < geo.w
    requires Window(geo, c, (p - geo.w) % geo.n)[geo.w - 1 - b] == EMPTY
    ensures c[(p - 1 - b) % geo.n] == EMPTY
  {
    ModAdd(p - geo.w, geo.w - 1 - b, geo.n);
  }

  lemma EmptyNearby(geo: Geometry, c: seq<int>, off: nat, d: nat, p: nat, z: int)
    requires Bytes(geo, c) && off < geo.n && d < geo.w && 0 <= d + z < geo.w
    requires p == (off + d) % geo.n && c[(p + z) % geo.n] == EMPTY
    ensures !NoEmptyIn(geo, c, off)
  {
    Nearby(geo, off, d, z);
  }

  /** A byte of a window, moved by z within the window, stays in it. */
  lemma Nearby(geo: Geometry, off: nat, d: nat, z: int)
    requires geo.Valid() && off < geo.n && d < geo.w && 0 <= d + z < geo.w
    ensures var x := ((off + d) % geo.n + z) % geo.n; 0 <= x && geo.InWindow(x, off)
  {
    hide Geometry.InWindow, Geometry.Valid;
    assert off + d + z == off + (d + z);
    ModAdd(off + d, z, geo.n);
    WindowAt(geo, off, d + z);
  }

  // ----- Probing ----------------------------------------------------------------------------------

  /** Every slot holding k is met at the i-th probe or later. */
  ghost predicate NotBefore<K, V>(geo: Geometry, start: nat, c: seq<int>, s: seq<(K, V)>, k: K, i: nat)
    requires geo.Valid() && |c| == |s| + 1
  {
    forall p :: 0 <= p < |s| && IsFull(c[p]) && s[p].0 == k ==> i <= geo.ProbeOf(start, p)
  }

  /** No byte of the i-th group that matches the hash belongs to k. */
  ghost predicate NoMatch<K, V>(geo: Geometry, s: seq<(K, V)>, k: K, h2: nat, off: nat, g: seq<int>, upTo: nat)
    requires geo.Valid() && upTo <= |g|
  {
    forall t :: 0 <= t < upTo && g[t] == h2 ==>
      var p := (off + t) % geo.n; p < |s| ==> s[p].0 != k
  }

  lemma NotBeforeBegin<K, V>(geo: Geometry, start: nat, c: seq<int>, s: seq<(K, V)>, k: K)
    requires geo.Valid() && |c| == |s| + 1
    ensures NotBefore(geo, start, c, s, k, 0)
  {}

  lemma NoMatchBegin<K, V>(geo: Geometry, s: seq<(K, V)>, k: K, h2: nat, off: nat, g: seq<int>)
    requires geo.Valid()
    ensures NoMatch(geo, s, k, h2, off, g, 0)
  {}

  lemma NoMatchStep<K, V>(geo: Geometry, s: seq<(K, V)>, k: K, h2: nat, off: nat, g: seq<int>, t: nat)
    requires geo.Valid() && t < |g| && NoMatch(geo, s, k, h2, off, g, t)
    requires g[t] == h2 ==> var p := (off + t) % geo.n; p < |s| ==> s[p].0 != k
    ensures NoMatch(geo, s, k, h2, off, g, t + 1)
  {}

  lemma MatchSlot<K, V>(geo: Geometry, hash: K -> nat, c: seq<int>, s: seq<(K, V)>, m: map<K, V>,
                        off: nat, t: nat)
    requires TableInv(geo, hash, c, s) && Holds(c, s, m)
    requires off < geo.n && t < geo.w && IsFull(Window(geo, c, off)[t])
    ensures var p := (off + t) % geo.n; 0 <= p < |s| && IsFull(c[p]) && s[p].0 in m
  {
    WindowAt(geo, off, t);
  }

  lemma ProbeMiss<K, V>(geo: Geometry, hash: K -> nat, c: seq<int>, s: seq<(K, V)>, k: K, i: nat)
    requires TableInv(geo, hash, c, s)
    requires NotBefore(geo, H1(hash(k)), c, s, k, i)
    requires var off := geo.Probe(H1(hash(k)), i);
             NoMatch(geo, s, k, H2(hash(k)), off, Window(geo, c, off), geo.w)
    ensures NotBefore(geo, H1(hash(k)), c, s, k, i + 1)
  {
    var start := H1(hash(k));
    forall p | 0 <= p < |s| && IsFull(c[p]) && s[p].0 == k
      ensures i + 1 <= geo.ProbeOf(start, p)
    {
      assert SlotOk(geo, hash, c, s, p);
      if geo.ProbeOf(start, p) == i { SeenAt(geo, c, geo.Probe(start, i), p); }
    }
  }

  lemma SeenAt(geo: Geometry, c: seq<int>, off: nat, p: nat)
    requires geo.Valid() && |c| == geo.n && off < geo.n && p < geo.n && geo.InWindow(p, off)
    ensures exists t :: 0 <= t < geo.w && Window(geo, c, off)[t] == c[p] && (off + t) % geo.n == p
  {
    var t := WindowIndex(geo, off, p);
    assert Window(geo, c, off)[t] == c[p];
  }

  /** An empty byte in the i-th group means that no later group can hold k. */
  lemma ProbeStop<K, V>(geo: Geometry, hash: K -> nat, c: seq<int>, s: seq<(K, V)>, m: map<K, V>, k: K, i: nat)
    requires TableInv(geo, hash, c, s) && Holds(c, s, m)
    requires NotBefore(geo, H1(hash(k)), c, s, k, i + 1)
    requires EMPTY in Window(geo, c, geo.Probe(H1(hash(k)), i))
    ensures k !in m
  {
    var off := geo.Probe(H1(hash(k)), i);
    if k in m {
      var p :| 0 <= p < |s| && IsFull(c[p]) && s[p].0 == k;
      assert SlotOk(geo, hash, c, s, p);
      assert NoEmptyIn(geo, c, off);
      EmptyHere(geo, c, off);
    }
  }

  lemma EmptyHere(geo: Geometry, c: seq<int>, off: nat)
    requires geo.Valid() && |c| == geo.n && off < geo.n && EMPTY in Window(geo, c, off)
    ensures !NoEmptyIn(geo, c, off)
  {
    var t :| 0 <= t < geo.w && Window(geo, c, off)[t] == EMPTY;
    WindowAt(geo, off, t);
  }

  /** A group without an empty byte is passed by; the empty byte e is met later. */
  lemma EmptyLater(geo: Geometry, c: seq<int>, start: nat, i: nat, e: nat)
    requires Bytes(geo, c) && EMPTY !in Window(geo, c, geo.Probe(start, i))
    requires e < geo.n && c[e] == EMPTY
    ensures geo.ProbeOf(start, e) != i
  {
    if geo.ProbeOf(start, e) == i { SeenAt(geo, c, geo.Probe(start, i), e); }
  }

  ghost predicate FullBefore(geo: Geometry, c: seq<int>, start: nat, i: nat)
    requires geo.Valid() && |c| == geo.n
  {
    forall j :: 0 <= j < i ==> AllFullIn(geo, c, geo.Probe(start, j))
  }

  lemma FullBeforeBegin(geo: Geometry, c: seq<int>, start: nat)
    requires geo.Valid() && |c| == geo.n
    ensures FullBefore(geo, c, start, 0)
  {}

  /** A group without a free byte is passed by; the free byte e is met later. */
  lemma FullBeforeStep(geo: Geometry, c: seq<int>, start: nat, i: nat, e: nat)
    requires Bytes(geo, c) && FullBefore(geo, c, start, i)
    requires LowestEmptyOrDeleted(Window(geo, c, geo.Probe(start, i))) == geo.w
    requires e < geo.n && IsEmptyOrDeleted(c[e])
    ensures FullBefore(geo, c, start, i + 1)
    ensures geo.ProbeOf(start, e) != i
  {
    var off := geo.Probe(start, i);
    forall p | 0 <= p < geo.n && geo.InWindow(p, off)
      ensures !IsEmptyOrDeleted(c[p])
    {
      SeenAt(geo, c, off, p);
    }
    assert AllFullIn(geo, c, off);
  }

  /** The first byte of the i-th group that is not full, all earlier groups being full. */
  lemma ProbeTarget(geo: Geometry, c: seq<int>, start: nat, i: nat)
    requires Bytes(geo, c) && i < geo.g
    requires FullBefore(geo, c, start, i)
    requires LowestEmptyOrDeleted(Window(geo, c, geo.Probe(start, i))) < geo.w
    ensures var off := geo.Probe(start, i);
            var p := (off + LowestEmptyOrDeleted(Window(geo, c, off))) % geo.n;
            p < geo.n - 1 && IsEmptyOrDeleted(c[p]) && Settled(geo, c, start, p)
  {
    var off := geo.Probe(start, i);
    var t := LowestEmptyOrDeleted(Window(geo, c, off));
    WindowAt(geo, off, t);
    var p := (off + t) % geo.n;
    assert Window(geo, c, off)[t] == c[p];
    geo.WindowUnique(start, p, i, geo.ProbeOf(start, p));
  }

  // ----- Moving into a fresh table ------------------------------------------------------------------

  /** `done` is what the full slots below i spell out. */
  ghost predicate HoldsBelow<K, V>(c: seq<int>, s: seq<(K, V)>, i: nat, done: map<K, V>)
    requires |c| == |s| + 1 && i <= |s|
  {
    && (forall p :: 0 <= p < i && IsFull(c[p]) ==> s[p].0 in done && done[s[p].0] == s[p].1)
    && (forall k :: k in done ==> exists p :: 0 <= p < i && IsFull(c[p]) && s[p].0 == k)
  }

  lemma HoldsBelowBegin<K, V>(c: seq<int>, s: seq<(K, V)>)
    requires |c| == |s| + 1
    ensures HoldsBelow(c, s, 0, map[])
  {}

  lemma TableFacts<K, V>(geo: Geometry, hash: K -> nat, c: seq<int>, s: seq<(K, V)>)
    requires TableInv(geo, hash, c, s)
    ensures Bytes(geo, c) && |c| == |s| + 1 && Distinct(c, s)
  {}

  lemma HoldsBelowStep<K, V>(c: seq<int>, s: seq<(K, V)>, i: nat, done: map<K, V>)
    requires |c| == |s| + 1 && i < |s| && Distinct(c, s) && HoldsBelow(c, s, i, done)
    ensures if IsFull(c[i]) then s[i].0 !in done && HoldsBelow(c, s, i + 1, done[s[i].0 := s[i].1])
            else HoldsBelow(c, s, i + 1, done)
  {
    var done' := if IsFull(c[i]) then done[s[i].0 := s[i].1] else done;
    forall k | k in done'
      ensures exists p :: 0 <= p < i + 1 && IsFull(c[p]) && s[p].0 == k
    {
      if k in done {
        var p :| 0 <= p < i && IsFull(c[p]) && s[p].0 == k;
      } else {
        assert IsFull(c[i]) && s[i].0 == k;
      }
    }
  }

  lemma HoldsBelowPart<K, V>(c: seq<int>, s: seq<(K, V)>, i: nat, done: map<K, V>, m: map<K, V>)
    requires |c| == |s| + 1 && i <= |s| && HoldsBelow(c, s, i, done) && Holds(c, s, m)
    ensures |done| <= |m|
    ensures i == |s| ==> done == m
  {
    assert done.Keys <= m.Keys by {
      forall k | k in done ensures k in m {
        var p :| 0 <= p < i && IsFull(c[p]) && s[p].0 == k;
      }
    }
    assert |done| == |done.Keys| <= |m.Keys| by { SubsetCount(done.Keys, m.Keys); }
    if i == |s| {
      forall k | k in m ensures k in done && done[k] == m[k] {
        var p :| 0 <= p < |s| && IsFull(c[p]) && s[p].0 == k;
      }
    }
  }

  lemma SubsetCount<T>(a: set<T>, b: set<T>)
    requires a <= b
    ensures |a| <= |b|
  {
    assert |b - a| == |b| - |a|;
  }

  // ----- Rehashing in place --------------------------------------------------------------------------

  /** In the middle of an in-place rehash a DELETED byte marks an element that still waits for its
      place; a full byte marks one that has found it, with nothing free before it in its probe order. */
  ghost predicate Midway<K, V>(geo: Geometry, hash: K -> nat, c: seq<int>, s: seq<(K, V)>, m: map<K, V>) {
    && Bytes(geo, c)
    && |s| == |c| - 1
    && (forall p :: 0 <= p < |s| && IsFull(c[p]) ==> Placed(geo, hash, c, s, p))
    && (forall p, q :: 0 <= p < |s| && 0 <= q < |s| && c[p] != EMPTY && c[q] != EMPTY && s[p].0 == s[q].0 ==> p == q)
    && (forall p :: 0 <= p < |s| && c[p] != EMPTY ==> s[p].0 in m && m[s[p].0] == s[p].1)
    && (forall k :: k in m ==> exists p :: 0 <= p < |s| && c[p] != EMPTY && s[p].0 == k)
  }

  ghost predicate Placed<K, V>(geo: Geometry, hash: K -> nat, c: seq<int>, s: seq<(K, V)>, p: nat)
    requires geo.Valid() && |c| == geo.n && |s| == |c| - 1 && p < |s|
  {
    c[p] == H2(hash(s[p].0)) && Settled(geo, c, H1(hash(s[p].0)), p)
  }

  /** ConvertDeletedToEmptyAndFullToDeleted. */
  function Converted(c: seq<int>): (r: seq<int>)
    requires |c| > 0
  {
    seq(|c|, p requires 0 <= p < |c| => if p == |c| - 1 then SENTINEL else if IsFull(c[p]) then DELETED else EMPTY)
  }

  lemma MidwayBegin<K, V>(geo: Geometry, hash: K -> nat, c: seq<int>, s: seq<(K, V)>, m: map<K, V>)
    requires TableInv(geo, hash, c, s) && Holds(c, s, m)
    ensures Midway(geo, hash, Converted(c), s, m)
  {
    var c' := Converted(c);
    assert forall p :: 0 <= p < |s| ==> (c'[p] != EMPTY <==> IsFull(c[p]));
    forall k | k in m
      ensures exists p :: 0 <= p < |s| && c'[p] != EMPTY && s[p].0 == k
    {
      var p :| 0 <= p < |s| && IsFull(c[p]) && s[p].0 == k;
      assert c'[p] != EMPTY;
    }
  }

  lemma MidwayEnd<K, V>(geo: Geometry, hash: K -> nat, c: seq<int>, s: seq<(K, V)>, m: map<K, V>)
    requires Midway(geo, hash, c, s, m)
    requires forall p :: 0 <= p < |s| ==> !IsDeleted(c[p])
    ensures TableInv(geo, hash, c, s) && Holds(c, s, m) && Dead(c) == {}
  {
    forall p | 0 <= p < |s| && IsFull(c[p])
      ensures SlotOk(geo, hash, c, s, p)
    {
      assert Placed(geo, hash, c, s, p);
      SettledIsReached(geo, c, H1(hash(s[p].0)), p);
    }
    forall k | k in m
      ensures exists p :: 0 <= p < |s| && IsFull(c[p]) && s[p].0 == k
    {
      var p :| 0 <= p < |s| && c[p] != EMPTY && s[p].0 == k;
      assert IsFull(c[p]);
    }
  }

  /** The three outcomes of one round of drop_deletes_without_resize at slot i, whose element's
      first free byte is t: it stays, it moves into an empty slot, or it trades places. */
  function RehashBytes<K>(geo: Geometry, hash: K -> nat, c: seq<int>, k: K, i: nat, t: nat): seq<int>
    requires geo.Valid() && i < |c| && t < |c|
  {
    if geo.GroupOf(H1(hash(k)), t) == geo.GroupOf(H1(hash(k)), i) then c[i := H2(hash(k))]
    else if IsEmpty(c[t]) then c[t := H2(hash(k))][i := EMPTY]
    else c[t := H2(hash(k))]
  }

  function RehashSlots<K, V>(geo: Geometry, hash: K -> nat, c: seq<int>, s: seq<(K, V)>, i: nat, t: nat): seq<(K, V)>
    requires geo.Valid() && |c| == |s| + 1 && i < |s| && t < |s|
  {
    var start := H1(hash(s[i].0));
    if geo.GroupOf(start, t) == geo.GroupOf(start, i) then s
    else if IsEmpty(c[t]) then s[t := s[i]]
    else s[t := s[i]][i := s[t]]
  }

  /** Elements are moved about: slot p now has what slot f[p] had, each element going to one slot. */
  ghost predicate Rearranged<K, V>(c: seq<int>, s: seq<(K, V)>, c': seq<int>, s': seq<(K, V)>, f: seq<nat>)
    requires |c| == |c'| == |s| + 1 && |f| == |s'| == |s|
  {
    && (forall p :: 0 <= p < |s| && c'[p] != EMPTY ==> f[p] < |s| && c[f[p]] != EMPTY && s'[p] == s[f[p]])
    && (forall p, q :: 0 <= p < |s| && 0 <= q < |s| && c'[p] != EMPTY && c'[q] != EMPTY && f[p] == f[q] ==> p == q)
    && (forall q :: 0 <= q < |s| && c[q] != EMPTY ==> exists p :: 0 <= p < |s| && c'[p] != EMPTY && f[p] == q)
  }

  lemma RearrangeKeeps<K, V>(geo: Geometry, hash: K -> nat, c: seq<int>, s: seq<(K, V)>, m: map<K, V>,
                             c': seq<int>, s': seq<(K, V)>, f: seq<nat>)
    requires Midway(geo, hash, c, s, m) && Bytes(geo, c') && |f| == |s'| == |s|
    requires Rearranged(c, s, c', s', f)
    requires forall q :: 0 <= q < |c| && IsEmptyOrDeleted(c'[q]) ==> IsEmptyOrDeleted(c[q])
    requires forall p :: 0 <= p < |s| && IsFull(c'[p]) ==>
               || (IsFull(c[p]) && c'[p] == c[p] && s'[p] == s[p])
               || (c'[p] == H2(hash(s'[p].0)) && Settled(geo, c, H1(hash(s'[p].0)), p))
    ensures Midway(geo, hash, c', s', m)
  {
    forall p | 0 <= p < |s| && IsFull(c'[p])
      ensures Placed(geo, hash, c', s', p)
    {
      if IsFull(c[p]) && s'[p] == s[p] { assert Placed(geo, hash, c, s, p); }
      SettledMono(geo, c, c', H1(hash(s'[p].0)), p);
    }
    forall k | k in m
      ensures exists p :: 0 <= p < |s| && c'[p] != EMPTY && s'[p].0 == k
    {
      KeyRearranged(c, s, c', s', f, k);
    }
  }

  lemma KeyRearranged<K, V>(c: seq<int>, s: seq<(K, V)>, c': seq<int>, s': seq<(K, V)>, f: seq<nat>, k: K)
    requires |c| == |c'| == |s| + 1 && |f| == |s'| == |s| && Rearranged(c, s, c', s', f)
    requires exists q :: 0 <= q < |s| && c[q] != EMPTY && s[q].0 == k
    ensures exists p :: 0 <= p < |s| && c'[p] != EMPTY && s'[p].0 == k
  {
    var q :| 0 <= q < |s| && c[q] != EMPTY && s[q].0 == k;
    var p :| 0 <= p < |s| && c'[p] != EMPTY && f[p] == q;
    assert s'[p] == s[q];
  }

  function Swapped(n: nat, i: nat, t: nat): (f: seq<nat>)
    ensures |f| == n && forall p :: 0 <= p < n ==> f[p] == if p == t then i else if p == i then t else p
  {
    seq(n, (p: nat) => if p == t then i else if p == i then t else p)
  }

  /** Trading the elements of i and t, where t may be empty and i may stay behind empty. */
  lemma TradeRearranges<K, V>(c: seq<int>, s: seq<(K, V)>, i: nat, t: nat, c': seq<int>, s': seq<(K, V)>)
    requires |c| == |c'| == |s| + 1 && |s'| == |s| && i < |s| && t < |s|
    requires c[i] != EMPTY && c'[t] != EMPTY && (c'[i] == EMPTY <==> c[t] == EMPTY)
    requires forall p :: 0 <= p < |s| && p != i && p != t ==> s'[p] == s[p] && (c'[p] == EMPTY <==> c[p] == EMPTY)
    requires s'[t] == s[i] && (c[t] != EMPTY ==> s'[i] == s[t])
    ensures Rearranged(c, s, c', s', Swapped(|s|, i, t))
  {
    var f := Swapped(|s|, i, t);
    forall q | 0 <= q < |s| && c[q] != EMPTY
      ensures exists p :: 0 <= p < |s| && c'[p] != EMPTY && f[p] == q
    {
      assert f[f[q]] == q;
    }
  }

  lemma Stay<K, V>(geo: Geometry, hash: K -> nat, c: seq<int>, s: seq<(K, V)>, m: map<K, V>, i: nat)
    requires Midway(geo, hash, c, s, m) && i < |s|
    requires IsDeleted(c[i]) && Settled(geo, c, H1(hash(s[i].0)), i)
    ensures Midway(geo, hash, c[i := H2(hash(s[i].0))], s, m)
  {
    hide Settled, Placed, Rearranged;
    var c' := c[i := H2(hash(s[i].0))];
    TradeRearranges(c, s, i, i, c', s);
    RearrangeKeeps(geo, hash, c, s, m, c', s, Swapped(|s|, i, i));
  }

  lemma Move<K, V>(geo: Geometry, hash: K -> nat, c: seq<int>, s: seq<(K, V)>, m: map<K, V>, i: nat, t: nat)
    requires Midway(geo, hash, c, s, m) && i < |s| && t < |s|
    requires IsDeleted(c[i]) && IsEmpty(c[t]) && Settled(geo, c, H1(hash(s[i].0)), t)
    ensures Midway(geo, hash, c[t := H2(hash(s[i].0))][i := EMPTY], s[t := s[i]], m)
  {
    hide Settled, Placed, Rearranged;
    var c', s' := c[t := H2(hash(s[i].0))][i := EMPTY], s[t := s[i]];
    TradeRearranges(c, s, i, t, c', s');
    RearrangeKeeps(geo, hash, c, s, m, c', s', Swapped(|s|, i, t));
  }

  lemma Trade<K, V>(geo: Geometry, hash: K -> nat, c: seq<int>, s: seq<(K, V)>, m: map<K, V>, i: nat, t: nat)
    requires Midway(geo, hash, c, s, m) && i < |s| && t < |s| && i != t
    requires IsDeleted(c[i]) && IsDeleted(c[t]) && Settled(geo, c, H1(hash(s[i].0)), t)
    ensures Midway(geo, hash, c[t := H2(hash(s[i].0))], s[t := s[i]][i := s[t]], m)
  {
    hide Settled, Placed, Rearranged;
    var c', s' := c[t := H2(hash(s[i].0))], s[t := s[i]][i := s[t]];
    TradeRearranges(c, s, i, t, c', s');
    RearrangeKeeps(geo, hash, c, s, m, c', s', Swapped(|s|, i, t));
  }

  lemma RehashStep<K, V>(geo: Geometry, hash: K -> nat, c: seq<int>, s: seq<(K, V)>, m: map<K, V>, i: nat, t: nat)
    requires Midway(geo, hash, c, s, m) && i < |s| && t < |s|
    requires IsDeleted(c[i]) && IsEmptyOrDeleted(c[t]) && Settled(geo, c, H1(hash(s[i].0)), t)
    ensures Midway(geo, hash, RehashBytes(geo, hash, c, s[i].0, i, t), RehashSlots(geo, hash, c, s, i, t), m)
    ensures |Dead(RehashBytes(geo, hash, c, s[i].0, i, t))| < |Dead(c)|
  {
    hide Geometry.GroupOf, Settled, Dead, Placed;
    var start, h2 := H1(hash(s[i].0)), H2(hash(s[i].0));
    if geo.GroupOf(start, t) == geo.GroupOf(start, i) {
      geo.SameProbe(start, t, i);
      SettledTogether(geo, c, start, t, i);
      Stay(geo, hash, c, s, m, i);
      SetByteDead(c, i, h2);
    } else if IsEmpty(c[t]) {
      Move(geo, hash, c, s, m, i, t);
      SetByteDead(c, t, h2);
      SetByteDead(c[t := h2], i, EMPTY);
    } else {
      Trade(geo, hash, c, s, m, i, t);
      SetByteDead(c, t, h2);
    }
  }

  lemma SettledTogether(geo: Geometry, c: seq<int>, start: nat, t: nat, i: nat)
    requires geo.Valid() && |c| == geo.n && geo.ProbeOf(start, t) == geo.ProbeOf(start, i)
    requires Settled(geo, c, start, t)
    ensures Settled(geo, c, start, i)
  {}
}
