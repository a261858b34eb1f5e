/** The open-addressing table itself (phmap's raw_hash_set): control bytes and slots updated in place. */
module RawHashSet {
  import opened Common
  import opened ProbeSequence
  import opened OpenTable

  class Table<K(==,0), V(0)> {
    const hash: K -> nat
    var geo: Geometry  // group width, and a ring of capacity + 1 bytes
    var ctrl: array<int>  // the ring, then a copy of its first bytes for group loads that run over its end
    var slots: array<(K, V)>
    var size: nat
    var growthLeft: nat
    ghost var m: map<K, V>

    function Capacity(): nat
      requires geo.Valid()
      reads this
    {
      geo.n - 1
    }

    function Ring(): (c: seq<int>)
      requires geo.n <= ctrl.Length
      reads `geo, `ctrl, ctrl
    {
      ctrl[..geo.n]
    }

    ghost predicate Shape()
      reads `geo, `ctrl, `slots, ctrl
    {
      && geo.Valid()
      && ctrl.Length == geo.n + geo.w
      && slots.Length == geo.n - 1
      && Bytes(geo, Ring())
      && forall i :: 0 <= i < geo.w - 1 ==> ctrl[geo.n + i] == ctrl[i]
    }

    ghost predicate Valid()
      reads this, ctrl, slots
    {
      && Shape()
      && TableInv(geo, hash, Ring(), slots[..])
      && Holds(Ring(), slots[..], m)
      && size == |m|
      && size + |Dead(Ring())| + growthLeft == CapacityToGrowth(geo.w, Capacity())
    }

    lemma ShapeFacts()
      requires Shape()
      ensures geo.Valid() && ctrl.Length == geo.n + geo.w && slots.Length == geo.n - 1 && Bytes(geo, Ring())
    {}

    /** The bytes a group load at an offset reads, which are those of the window on the ring. */
    function Group(off: nat): (g: seq<int>)
      requires Shape() && off < geo.n
      reads `geo, `ctrl, `slots, ctrl
      ensures g == Window(geo, Ring(), off)
    {
      var g := ctrl[off..off + geo.w];
      assert g == Window(geo, Ring(), off) by {
        forall t | 0 <= t < geo.w
          ensures g[t] == Ring()[(off + t) % geo.n]
        {
          if off + t < geo.n {
            ModUnique(off + t, geo.n, 0, off + t);
          } else {
            ModUnique(off + t, geo.n, 1, off + t - geo.n);
          }
        }
      }
      g
    }

    constructor (hash: K -> nat, geo: Geometry)
      requires geo.Valid()
      ensures Valid() && m == map[] && this.hash == hash && this.geo == geo
      ensures fresh(ctrl) && fresh(slots)
    {
      this.hash := hash;
      this.geo := geo;
      ctrl := new int[geo.n + geo.w](i => if i == geo.n - 1 then SENTINEL else EMPTY);
      slots := new (K, V)[geo.n - 1];
      size := 0;
      growthLeft := CapacityToGrowth(geo.w, geo.n - 1);
      m := map[];
      new;
      BlankTable(geo, hash, Ring(), slots[..]);
    }

    /** Writes a byte of the ring, and its copy when it has one. */
    method SetCtrl(i: nat, h: int)
      requires Shape() && i < Capacity()
      requires h == EMPTY || h == DELETED || 0 <= h < 128
      modifies ctrl
      ensures Shape() && Ring() == old(Ring())[i := h]
    {
      ghost var before := Ring();
      ctrl[i] := h;
      ctrl[(i - geo.w) % geo.n + geo.w] := h;
      if i < geo.w {
        ModUnique(i - geo.w, geo.n, -1, i - geo.w + geo.n);
      } else {
        ModUnique(i - geo.w, geo.n, 0, i - geo.w);
      }
      assert Ring() == before[i := h];
    }

    /** A valid table always has an empty byte, which is what ends every probe loop. */
    lemma SomeEmpty() returns (e: nat)
      requires Valid()
      ensures e < Capacity() && Ring()[e] == EMPTY
    {
      FullCount(Ring(), slots[..], m);
      CountsAdd(Ring());
      GrowthBelowCapacity(geo.w, Capacity());
      assert Empties(Ring()) != {};
      e :| e in Empties(Ring());
    }

    /** Compares the key with the slots of one group whose byte matches the hash. */
    method MatchGroup(key: K, hashval: nat, off: nat) returns (found: bool, offset: nat)
      requires Valid() && off < geo.n
      ensures found ==> offset < Capacity() && IsFull(Ring()[offset]) && slots[offset].0 == key && key in m
      ensures !found ==> NoMatch(geo, slots[..], key, H2(hashval), off, Window(geo, Ring(), off), geo.w)
    {
      hide Window, Bytes, Settled, FullBefore, LowestEmptyOrDeleted, Geometry.Probe, Geometry.Valid,
           Geometry.InWindow, TableInv, Holds, NotBefore, NoMatch;
      ghost var c, s := Ring(), slots[..];
      var g := Group(off);
      NoMatchBegin(geo, s, key, H2(hashval), off, g);
      for t := 0 to geo.w
        invariant NoMatch(geo, s, key, H2(hashval), off, g, t)
      {
        if g[t] == H2(hashval) {
          MatchSlot(geo, hash, c, s, m, off, t);
          offset := (off + t) % geo.n;
          if slots[offset].0 == key {
            return true, offset;
          }
        }
        NoMatchStep(geo, s, key, H2(hashval), off, g, t);
      }
      return false, 0;
    }

    method FindImpl(key: K, hashval: nat) returns (found: bool, offset: nat)
      requires Valid() && hashval == hash(key)
      ensures found <==> key in m
      ensures found ==> offset < Capacity() && IsFull(Ring()[offset]) && slots[offset].0 == key
    {
      hide Window, Bytes, Settled, FullBefore, LowestEmptyOrDeleted, Geometry.Probe, Geometry.Valid,
           Geometry.InWindow, TableInv, Holds, NotBefore, NoMatch;
      ghost var c, s, start := Ring(), slots[..], H1(hashval);
      ghost var i := 0;
      ghost var e := SomeEmpty();
      NotBeforeBegin(geo, start, c, s, key);
      var cur := Begin(geo, H1(hashval));
      BeginAt(geo, start);
      while true
        invariant cur.geo == geo && cur.At(start, i)
        invariant i <= geo.ProbeOf(start, e)
        invariant NotBefore(geo, start, c, s, key, i)
        decreases geo.g - i
      {
        found, offset := MatchGroup(key, hashval, cur.offset);
        if found {
          return;
        }
        ProbeMiss(geo, hash, c, s, key, i);
        if EMPTY in Group(cur.offset) {
          ProbeStop(geo, hash, c, s, m, key, i);
          return;
        }
        EmptyLater(geo, c, start, i, e);
        cur.NextAt(start, i);
        cur := cur.Next();
        i := i + 1;
      }
    }

    /** The first byte in probe order that is not full; `e` only witnesses that there is one. */
    method FindFirstNonFull(hashval: nat, ghost e: nat) returns (target: nat)
      requires Shape() && e < Capacity() && IsEmptyOrDeleted(Ring()[e])
      ensures target < Capacity() && IsEmptyOrDeleted(Ring()[target])
      ensures Settled(geo, Ring(), H1(hashval), target)
    {
      hide Shape, Window, Bytes, Settled, FullBefore, LowestEmptyOrDeleted, Geometry.Probe, Geometry.Valid,
           Geometry.InWindow, TableInv, Holds, NotBefore, NoMatch;
      ShapeFacts();
      ghost var c, start := Ring(), H1(hashval);
      ghost var i := 0;
      var cur := Begin(geo, H1(hashval));
      BeginAt(geo, start);
      FullBeforeBegin(geo, c, start);
      while true
        invariant cur.geo == geo && cur.At(start, i)
        invariant i <= geo.ProbeOf(start, e)
        invariant FullBefore(geo, c, start, i)
        decreases geo.g - i
      {
        var g := Group(cur.offset);
        var t := LowestEmptyOrDeleted(g);
        if t < |g| {
          ProbeTarget(geo, c, start, i);
          return cur.OffsetOf(t);
        }
        FullBeforeStep(geo, c, start, i, e);
        cur.NextAt(start, i);
        cur := cur.Next();
        i := i + 1;
      }
    }

    /** Takes a full slot out of the table, leaving a tombstone only where a probe may need one. */
    method EraseMetaOnly(index: nat)
      requires Valid() && index < Capacity() && IsFull(Ring()[index])
      modifies this`size, this`growthLeft, this`m, ctrl
      ensures Valid() && m == old(m) - {slots[index].0}
    {
      hide Shape, Bytes, TableInv, Holds, Window, IsFull, TrailingNonEmpty, LeadingNonEmpty, Dead, EraseByte,
           Geometry.Valid;
      ShapeFacts();
      ghost var c := Ring();
      EraseKeeps(geo, hash, c, slots[..], m, index);
      var indexBefore := (index - geo.w) % geo.n;
      var wasNeverFull := WasNeverFull(geo.w, Group(index), Group(indexBefore));
      EraseByteIs(geo, c, index);
      Vacate(index, wasNeverFull);
    }

    /** Marks a slot's byte, with the counters, where that loses the slot's key and nothing else. */
    method Vacate(index: nat, wasNeverFull: bool)
      requires Valid() && index < Capacity()
      requires MayVacate(geo, hash, Ring(), slots[..], m, index, if wasNeverFull then EMPTY else DELETED)
      modifies this`size, this`growthLeft, this`m, ctrl
      ensures Valid() && m == old(m) - {slots[index].0}
    {
      hide Bytes, TableInv, Holds, IsFull, Dead;
      size := size - 1;
      growthLeft := growthLeft + if wasNeverFull then 1 else 0;
      m := m - {slots[index].0};
      SetCtrl(index, if wasNeverFull then EMPTY else DELETED);
    }

    /** The table without its counters: what placing an element and moving house both keep. */
    ghost predicate Core(mm: map<K, V>)
      reads `geo, `ctrl, `slots, ctrl, slots
    {
      Shape() && TableInv(geo, hash, Ring(), slots[..]) && Holds(Ring(), slots[..], mm)
    }

    /** Writes a new element over a byte that is not full. */
    method PlaceAt(target: nat, key: K, value: V, ghost mm: map<K, V>)
      requires Core(mm) && key !in mm
      requires target < Capacity() && IsEmptyOrDeleted(Ring()[target])
      requires Settled(geo, Ring(), H1(hash(key)), target)
      modifies ctrl, slots
      ensures Core(mm[key := value])
      ensures Ring() == old(Ring())[target := H2(hash(key))]
      ensures slots[..] == old(slots[..])[target := (key, value)]
    {
      hide Shape, TableInv, Holds, Settled, Bytes;
      ShapeFacts();
      SettledIsReached(geo, Ring(), H1(hash(key)), target);
      PlaceKeeps(geo, hash, Ring(), slots[..], mm, target, key, value);
      SetCtrl(target, H2(hash(key)));
      slots[target] := (key, value);
    }

    /** Moves every element into a new, larger ring without tombstones. */
    method Resize(newGeo: Geometry)
      requires Valid() && newGeo.Valid() && newGeo.w == geo.w
      requires size <= CapacityToGrowth(newGeo.w, newGeo.n - 1)
      modifies this
      ensures Valid() && m == old(m) && geo == newGeo
      ensures fresh(ctrl) && fresh(slots)
      ensures growthLeft == CapacityToGrowth(geo.w, Capacity()) - size
    {
      hide Shape, TableInv, Holds, Core, HoldsBelow, Distinct, Dead, CapacityToGrowth;
      ShapeFacts();
      ghost var c, s := Ring(), slots[..];
      TableFacts(geo, hash, c, s);
      var oldCtrl, oldSlots, oldCapacity := ctrl, slots, geo.n - 1;
      Reset(newGeo);
      growthLeft := CapacityToGrowth(geo.w, geo.n - 1) - size;
      ghost var done: map<K, V> := map[];
      HoldsBelowBegin(c, s);
      for i := 0 to oldCapacity
        invariant geo == newGeo && geo.n <= ctrl.Length && fresh(ctrl) && fresh(slots) && ctrl != oldCtrl &&
              slots != oldSlots
        invariant size == |m| && m == old(m) && growthLeft == CapacityToGrowth(geo.w, geo.n - 1) - size
        invariant oldCtrl[..oldCapacity + 1] == c && oldSlots[..] == s
        invariant Core(done) && Dead(Ring()) == {} && HoldsBelow(c, s, i, done)
      {
        HoldsBelowStep(c, s, i, done);
        HoldsBelowPart(c, s, i, done, m);
        if IsFull(oldCtrl[i]) {
          MoveIn(oldSlots[i].0, oldSlots[i].1, done);
          done := done[oldSlots[i].0 := oldSlots[i].1];
        }
      }
      HoldsBelowPart(c, s, oldCapacity, done, m);
      CoreValid();
    }

    lemma CoreValid()
      requires Core(m) && Dead(Ring()) == {} && size == |m|
      requires size + growthLeft == CapacityToGrowth(geo.w, Capacity())
      ensures Valid()
    {}


    method MoveIn(key: K, value: V, ghost done: map<K, V>)
      requires Core(done) && Dead(Ring()) == {} && key !in done
      requires |done| <= CapacityToGrowth(geo.w, Capacity())
      modifies ctrl, slots
      ensures Core(done[key := value]) && Dead(Ring()) == {}
    {
      hide Shape, TableInv, Holds, Settled, Bytes, Dead, CapacityToGrowth;
      ShapeFacts();
      ghost var e := RoomLeft(done);
      var target := FindFirstNonFull(hash(key), e);
      SetByteDead(Ring(), target, H2(hash(key)));
      PlaceAt(target, key, value, done);
      assert |Dead(Ring())| == 0;
    }

    /** A table that holds few enough elements and no tombstones has an empty byte. */
    lemma RoomLeft(done: map<K, V>) returns (e: nat)
      requires Core(done) && Dead(Ring()) == {} && |done| <= CapacityToGrowth(geo.w, Capacity())
      ensures e < Capacity() && Ring()[e] == EMPTY
    {
      FullCount(Ring(), slots[..], done);
      CountsAdd(Ring());
      GrowthBelowCapacity(geo.w, Capacity());
      assert Empties(Ring()) != {};
      e :| e in Empties(Ring());
    }

    /** initialize_slots: fresh storage, every byte empty. */
    method Reset(newGeo: Geometry)
      requires newGeo.Valid()
      modifies `geo, `ctrl, `slots
      ensures geo == newGeo && fresh(ctrl) && fresh(slots) && geo.n <= ctrl.Length
      ensures Core(map[]) && Dead(Ring()) == {}
    {
      var n := newGeo.n;
      geo := newGeo;
      ctrl := new int[n + geo.w](i => if i == n - 1 then SENTINEL else EMPTY);
      slots := new (K, V)[n - 1];
      BlankTable(geo, hash, Ring(), slots[..]);
    }

    /** ConvertDeletedToEmptyAndFullToDeleted, byte by byte, and the copied bytes again. */
    method ConvertRing(ghost c: seq<int>)
      requires Shape() && c == Ring()
      modifies ctrl
      ensures forall q :: 0 <= q < geo.n ==> ctrl[q] == if IsFull(c[q]) then DELETED else EMPTY
    {
      for p := 0 to geo.n
        invariant forall q :: 0 <= q < p ==> ctrl[q] == if IsFull(c[q]) then DELETED else EMPTY
        invariant forall q :: p <= q < geo.n ==> ctrl[q] == c[q]
      {
        ctrl[p] := if IsFull(ctrl[p]) then DELETED else EMPTY;
      }
    }

    method ConvertCtrl()
      requires Shape()
      modifies ctrl
      ensures Shape() && Ring() == Converted(old(Ring()))
    {
      ghost var c := Ring();
      ConvertRing(c);
      for i := 0 to geo.w
        invariant forall q :: 0 <= q < geo.n ==> ctrl[q] == if IsFull(c[q]) then DELETED else EMPTY
        invariant forall q :: 0 <= q < i ==> ctrl[geo.n + q] == ctrl[q]
      {
        ctrl[geo.n + i] := ctrl[i];
      }
      ctrl[geo.n - 1] := SENTINEL;
      assert Ring() == Converted(c);
    }

    /** The group of the probe sequence that a position falls in. */
    function ProbeIndex(hashval: nat, pos: nat): (q: nat)
      requires geo.Valid()
      reads `geo
      ensures q == geo.GroupOf(H1(hashval), pos)
    {
      ModSub(pos, H1(hashval), geo.n);
      (pos - Begin(geo, H1(hashval)).offset) % geo.n / geo.w
    }

    /** Rehashes in place: tombstones become room, every element ends where a probe finds it. */
    method DropDeletesWithoutResize()
      requires Valid()
      modifies this`growthLeft, ctrl, slots
      ensures Valid() && growthLeft == CapacityToGrowth(geo.w, Capacity()) - size
      ensures forall p :: 0 <= p < Capacity() ==> !IsDeleted(Ring()[p])
    {
      hide Shape, TableInv, Holds, Midway, Dead, CapacityToGrowth;
      ShapeFacts();
      MidwayBegin(geo, hash, Ring(), slots[..], m);
      ConvertCtrl();
      growthLeft := CapacityToGrowth(geo.w, geo.n - 1) - size;
      RehashAll();
      ShapeFacts();
      MidwayEnd(geo, hash, Ring(), slots[..], m);
    }

    method RehashAll()
      requires Shape() && Midway(geo, hash, Ring(), slots[..], m)
      modifies ctrl, slots
      ensures Shape() && Midway(geo, hash, Ring(), slots[..], m)
      ensures forall p :: 0 <= p < Capacity() ==> !IsDeleted(Ring()[p])
    {
      hide Shape, Midway, Dead;
      ShapeFacts();
      var i := 0;
      while i != geo.n - 1
        invariant 0 <= i <= geo.n - 1
        invariant Shape() && Midway(geo, hash, Ring(), slots[..], m)
        invariant forall p :: 0 <= p < i ==> !IsDeleted(Ring()[p])
        decreases |Dead(Ring())|, geo.n - i
      {
        ShapeFacts();
        if IsDeleted(ctrl[i]) {
          i := RehashOne(i);
        } else {
          i := i + 1;
        }
      }
    }

    /** One round at a slot that waits: it stays, moves into an empty slot, or trades places with
        another waiting element, in which case the same slot comes up again. */
    method RehashOne(i: nat) returns (next: nat)
      requires Shape() && Midway(geo, hash, Ring(), slots[..], m)
      requires i < Capacity() && IsDeleted(Ring()[i])
      modifies ctrl, slots
      ensures Shape() && Midway(geo, hash, Ring(), slots[..], m)
      ensures i <= next <= i + 1
      ensures forall p :: 0 <= p < i && !old(IsDeleted(Ring()[p])) ==> !IsDeleted(Ring()[p])
      ensures next == i + 1 ==> !IsDeleted(Ring()[i])
      ensures |Dead(Ring())| < old(|Dead(Ring())|)
    {
      hide Shape, Midway, Settled, Bytes, Dead, Geometry.GroupOf;
      ShapeFacts();
      ghost var c, s := Ring(), slots[..];
      var key := slots[i].0;
      var hashval := hash(key);
      var newI := FindFirstNonFull(hashval, i);
      RehashStep(geo, hash, c, s, m, i, newI);
      if ProbeIndex(hashval, newI) == ProbeIndex(hashval, i) {
        SetCtrl(i, H2(hashval));
        next := i + 1;
      } else if IsEmpty(ctrl[newI]) {
        SetCtrl(newI, H2(hashval));
        slots[newI] := slots[i];
        SetCtrl(i, EMPTY);
        next := i + 1;
      } else {
        SetCtrl(newI, H2(hashval));
        slots[i], slots[newI] := slots[newI], slots[i];
        next := i;
      }
      assert Ring() == RehashBytes(geo, hash, c, key, i, newI);
      assert slots[..] == RehashSlots(geo, hash, c, s, i, newI);
    }

    /** Makes room for one more element: by rehashing in place when at least half the load is
        tombstones, by doubling otherwise. */
    method RehashAndGrowIfNecessary()
      requires Valid()
      modifies this, ctrl, slots
      ensures Valid() && m == old(m) && growthLeft > 0 && geo.w == old(geo.w)
      ensures (ctrl == old(ctrl) && slots == old(slots)) || (fresh(ctrl) && fresh(slots))
    {
      hide Shape, TableInv, Holds, Bytes, Dead, Geometry.Valid, CapacityToGrowth;
      ShapeFacts();
      geo.DoubleValid();
      GrowthDoubles(geo);
      if size <= CapacityToGrowth(geo.w, geo.n - 1) / 2 {
        DropDeletesWithoutResize();
      } else {
        Resize(geo.Double());
      }
    }

    /** The slot prepare_insert picks, after making room when only an empty byte would do and the
        load is used up. */
    method FindRoom(hashval: nat) returns (index: nat)
      requires Valid()
      modifies this, ctrl, slots
      ensures Valid() && m == old(m) && geo.w == old(geo.w)
      ensures index < Capacity() && IsEmptyOrDeleted(Ring()[index]) && Settled(geo, Ring(), H1(hashval), index)
      ensures IsDeleted(Ring()[index]) || growthLeft > 0
      ensures (ctrl == old(ctrl) && slots == old(slots)) || (fresh(ctrl) && fresh(slots))
    {
      hide Shape, TableInv, Holds, Settled, Bytes, Dead, CapacityToGrowth;
      ShapeFacts();
      ghost var e := SomeEmpty();
      index := FindFirstNonFull(hashval, e);
      if growthLeft == 0 && !IsDeleted(ctrl[index]) {
        RehashAndGrowIfNecessary();
        ShapeFacts();
        e := SomeEmpty();
        index := FindFirstNonFull(hashval, e);
      }
    }

    /** prepare_insert followed by emplace_at: a key that is not in the table gets a slot. */
    method Emplace(key: K, value: V) returns (index: nat)
      requires Valid() && key !in m
      modifies this, ctrl, slots
      ensures Valid() && m == old(m)[key := value] && geo.w == old(geo.w)
      ensures index < Capacity() && IsFull(Ring()[index]) && slots[index] == (key, value)
      ensures (ctrl == old(ctrl) && slots == old(slots)) || (fresh(ctrl) && fresh(slots))
    {
      hide Shape, TableInv, Holds, Settled, Bytes, Dead, CapacityToGrowth;
      index := FindRoom(hash(key));
      Occupy(index, key, value);
    }

    method Occupy(index: nat, key: K, value: V)
      requires Valid() && key !in m
      requires index < Capacity() && IsEmptyOrDeleted(Ring()[index]) && Settled(geo, Ring(), H1(hash(key)), index)
      requires IsDeleted(Ring()[index]) || growthLeft > 0
      modifies `size, `growthLeft, `m, ctrl, slots
      ensures Valid() && m == old(m)[key := value]
      ensures index < Capacity() && IsFull(Ring()[index]) && slots[index] == (key, value)
    {
      hide Shape, TableInv, Holds, Settled, Bytes, Dead, CapacityToGrowth;
      ShapeFacts();
      SetByteDead(Ring(), index, H2(hash(key)));
      size := size + 1;
      growthLeft := growthLeft - if IsEmpty(ctrl[index]) then 1 else 0;
      PlaceAt(index, key, value, m);
      m := m[key := value];
      ShapeFacts();
    }

    /** if_contains: the value stored under a key. */
    method Find(key: K) returns (found: bool, value: V)
      requires Valid()
      ensures found <==> key in m
      ensures found ==> value == m[key]
    {
      hide Shape, TableInv, Bytes;
      ShapeFacts();
      var offset;
      found, offset := FindImpl(key, hash(key));
      value := if found then slots[offset].1 else slots[0].1;
    }

    /** try_emplace_l as the access index uses it: replace the value, or insert a new entry. */
    method Update(key: K, value: V)
      requires Valid()
      modifies this, ctrl, slots
      ensures Valid() && m == old(m)[key := value] && geo.w == old(geo.w)
      ensures (ctrl == old(ctrl) && slots == old(slots)) || (fresh(ctrl) && fresh(slots))
    {
      hide Shape, TableInv, Holds, Bytes;
      ShapeFacts();
      var found, index := FindImpl(key, hash(key));
      if found {
        ReplaceKeeps(geo, hash, Ring(), slots[..], m, index, value);
        slots[index] := (slots[index].0, value);
        m := m[key := value];
      } else {
        index := Emplace(key, value);
      }
    }

    /** erase_if with a condition that always holds. */
    method Remove(key: K) returns (erased: bool)
      requires Valid()
      modifies this`size, this`growthLeft, this`m, ctrl
      ensures Valid() && m == old(m) - {key}
      ensures erased <==> key in old(m)
    {
      hide Shape, TableInv, Holds, Bytes;
      var index;
      erased, index := FindImpl(key, hash(key));
      if erased {
        EraseMetaOnly(index);
      }
    }
  }
}
