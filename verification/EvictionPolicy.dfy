/** The eviction policy the caches use: ids tracked in an LRU container, one shard of it. */
module EvictionPolicy {
  import opened Handles
  import opened LruContainer

  class LruEvictionPolicy {
    const lru: LRUContainer

    ghost predicate Valid()
      reads lru, lru.table, lru.table.list, lru.table.nodes`nextHash
      reads lru.lru, lru.l.order`next, lru.l.order`prev, lru.l.owned
    {
      lru.Valid()
    }

    constructor ()
      ensures Valid() && fresh(lru) && lru.l.order == []
    {
      lru := new LRUContainer();
    }

    /** The id is tracked anew, as the most recent one, whatever it was before. */
    method Add(id: Tag, size: nat, mallocOk: bool)
      requires Valid()
      modifies lru, lru.table, lru.table.list, lru.lru, lru.l.owned
      ensures Valid()
      ensures id in lru.table.m && lru.table.m == old(lru.table.m)[id := lru.table.m[id]]
      ensures var e := lru.table.m[id];
              && fresh(e) && e.charge == size && lru.l.clients == old(lru.l.clients)
              && lru.l.order ==
                 (if id in old(lru.table.m) then Unlisted(old(lru.l), old(lru.table.m)[id]) else old(lru.l).order) + [e]
    {
      hide LRUContainer.Valid, Ledger.Balanced;
      ghost var l, m := lru.l, lru.table.m;
      var handle := lru.Insert(id, size, mallocOk);
      Tracked(lru, handle);
      lru.Release(handle);
    }

    /** A handle that keeps the id from being evicted until it is released. */
    method Touch(id: Tag) returns (handle: Handle?)
      requires Valid()
      modifies lru`l, lru`lookupCount, lru.lru, lru.l.owned
      ensures Valid() && (handle != null <==> id in lru.table.m)
      ensures handle != null ==> handle.tag == id && lru.l == old(lru.l).Held(handle)
      ensures handle != null ==> handle in lru.l.clients && handle !in lru.l.order
      ensures handle == null ==> lru.l == old(lru.l)
    {
      hide LRUContainer.Valid, Ledger.Balanced;
      if id in lru.table.m { EntryOf(lru, id); }
      handle := lru.Lookup(id);
      if handle != null {
        HeldIsOffList(lru, handle);
      }
    }

    method Release(handle: Handle)
      requires Valid() && handle in lru.l.clients
      modifies lru`l, lru`usage, lru.lru, lru.l.owned
      ensures Valid() && lru.l == old(lru.l).Released(lru.table.nodes, handle)
    {
      hide LRUContainer.Valid, Ledger.Balanced;
      lru.Release(handle);
    }

    /** The ids of the oldest entries of the shard that reach the size, oldest first. */
    method EvictFor(size: nat) returns (evicted: seq<Tag>)
      requires Valid()
      modifies lru, lru.table, lru.table.list, lru.lru, lru.l.owned
      ensures Valid()
      ensures var order := old(lru.l).order;
              var n := EvictLength(order, size);
              && n <= |order| && |evicted| == n && (forall k :: 0 <= k < n ==> evicted[k] == order[k].tag)
              && lru.l == old(lru.l).Evicted(n)
              && lru.table.m == old(lru.table.m) - Tags(order[..n])
    {
      hide LRUContainer.Valid, Ledger.Balanced, Ledger.Evicted, Tags, EvictLength;
      var handles := lru.Evict(size, []);
      evicted := [];
      for k := 0 to |handles|
        invariant |evicted| == k && forall j :: 0 <= j < k ==> evicted[j] == handles[j].tag
      {
        evicted := evicted + [handles[k].tag];
      }
    }

    method Remove(id: Tag)
      requires Valid()
      modifies lru, lru.table, lru.table.list, lru.lru, lru.l.owned
      ensures Valid() && lru.table.m == old(lru.table.m) - {id}
      ensures lru.l == if id in old(lru.table.m) then old(lru.l).Dropped(old(lru.table.m)[id]) else old(lru.l)
    {
      hide LRUContainer.Valid, Ledger.Balanced, Ledger.Dropped;
      lru.Erase(id);
    }

    method Clear()
      requires Valid()
      modifies lru, lru.table, lru.table.list, lru.lru, lru.l.owned
      ensures Valid() && lru.l.order == [] && lru.l.clients == old(lru.l).clients
    {
      hide LRUContainer.Valid, Ledger.Balanced;
      var count := lru.Prune();
    }
  }

  /** The list without an entry, unless it is held and not on the list anyway. */
  ghost function Unlisted(l: Ledger, e: Handle): seq<Handle> {
    if e in l.clients then l.order else Except(l.order, e)
  }

  lemma Tracked(lru: LRUContainer, e: Handle)
    requires lru.Valid() && lru.table.m.Keys >= {e.tag} && lru.table.m[e.tag] == e
    ensures e in lru.table.nodes
  {
    lru.table.FilingOf(e.tag);
  }

  lemma EntryOf(lru: LRUContainer, id: Tag)
    requires lru.Valid() && id in lru.table.m
    ensures lru.table.m[id].tag == id
  {
    lru.table.FilingOf(id);
  }

  lemma HeldIsOffList(lru: LRUContainer, e: Handle)
    requires lru.Valid() && e in lru.l.clients
    ensures e !in lru.l.order
  {}
}
