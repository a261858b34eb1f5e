/** One shard of the LRU container: reference-counted handles, filed in a HandleTable and, when only
    the table refers to them, kept on a circular list from oldest to newest. */
module LruContainer {
  import opened Handles

  // ----- The circular list --------------------------------------------------------------------------

  /** Position i on the ring: the dummy head at both ends, the list's handles in between. */
  ghost function RingAt(lru: Handle, order: seq<Handle>, i: nat): Handle
    requires i <= |order| + 1
  {
    if i == 0 || i == |order| + 1 then lru else order[i - 1]
  }

  /** The handles of `order`, oldest first, are linked both ways round through the dummy head. */
  ghost predicate Ring(lru: Handle, order: seq<Handle>)
    reads lru`next, lru`prev, order`next, order`prev
  {
    forall i :: 0 <= i <= |order| ==> Joins(lru, order, i)
  }

  /** The i-th of them and the next refer to each other. */
  ghost predicate Joins(lru: Handle, order: seq<Handle>, i: nat)
    requires i <= |order|
    reads lru`next, lru`prev, order`next, order`prev
  {
    && RingAt(lru, order, i).next == RingAt(lru, order, i + 1)
    && RingAt(lru, order, i + 1).prev == RingAt(lru, order, i)
  }

  ghost predicate NoDuplicates(order: seq<Handle>) {
    forall i, j :: 0 <= i < |order| && 0 <= j < |order| && order[i] == order[j] ==> i == j
  }

  ghost function Drop(order: seq<Handle>, i: nat): seq<Handle>
    requires i < |order|
  {
    order[..i] + order[i + 1..]
  }

  /** No handle is at two places of the ring, but for the dummy head at both ends. */
  lemma RingDistinct(lru: Handle, order: seq<Handle>, i: nat, j: nat)
    requires NoDuplicates(order) && lru !in order && i <= |order| + 1 && j <= |order| + 1
    ensures RingAt(lru, order, i) == RingAt(lru, order, j) ==>
              i == j || (i == 0 && j == |order| + 1) || (i == |order| + 1 && j == 0)
  {
    if 0 < i <= |order| { assert RingAt(lru, order, i) in order; }
    if 0 < j <= |order| { assert RingAt(lru, order, j) in order; }
  }

  /** What is behind the i-th handle moves up by one when it is dropped. */
  lemma RingDrop(lru: Handle, order: seq<Handle>, i: nat, k: nat)
    requires i < |order| && k <= |order|
    ensures |Drop(order, i)| == |order| - 1
    ensures RingAt(lru, Drop(order, i), k) == RingAt(lru, order, if k <= i then k else k + 1)
  {}

  method LruRemove(lru: Handle, e: Handle, ghost order: seq<Handle>, ghost i: nat)
    requires Ring(lru, order) && NoDuplicates(order) && lru !in order
    requires i < |order| && order[i] == e
    modifies lru`next, lru`prev, order`next, order`prev
    ensures Ring(lru, Drop(order, i))
    ensures e.next == null && e.prev == null
  {
    hide NoDuplicates, Drop;
    assert Joins(lru, order, i) && Joins(lru, order, i + 1);
    e.next.prev := e.prev;
    e.prev.next := e.next;
    e.prev, e.next := null, null;
    ghost var rest := Drop(order, i);
    RingDrop(lru, order, i, 0);
    forall k | 0 <= k <= |rest|
      ensures Joins(lru, rest, k)
    {
      RingDrop(lru, order, i, k);
      RingDrop(lru, order, i, k + 1);
      var was := if k <= i then k else k + 1;
      assert old(Joins(lru, order, was));
      RingDistinct(lru, order, was, i);
      RingDistinct(lru, order, was, i + 1);
      RingDistinct(lru, order, was + 1, i + 1);
      RingDistinct(lru, order, was + 1, i + 2);
    }
  }

  method LruAppend(lru: Handle, e: Handle, ghost order: seq<Handle>)
    requires Ring(lru, order) && NoDuplicates(order) && lru !in order
    requires e != lru && e !in order
    modifies lru`next, lru`prev, order`next, order`prev, e`next, e`prev
    ensures Ring(lru, order + [e])
  {
    assert Joins(lru, order, |order|);
    e.next := lru;
    e.prev := lru.prev;
    e.prev.next := e;
    e.next.prev := e;
    ghost var longer := order + [e];
    forall k | 0 <= k <= |longer|
      ensures Joins(lru, longer, k)
    {
      if k < |order| {
        assert RingAt(lru, longer, k) == RingAt(lru, order, k);
        assert RingAt(lru, longer, k + 1) == RingAt(lru, order, k + 1);
        assert old(Joins(lru, order, k));
      }
    }
  }

  // ----- What the container owes to whom -----------------------------------------------------------

  ghost function Charges(hs: set<Handle>): nat {
    if hs == {} then 0 else
      var h :| h in hs;
      h.charge + Charges(hs - {h})
  }

  lemma {:induction false} ChargesSplit(hs: set<Handle>, h: Handle)
    requires h in hs
    ensures Charges(hs) == h.charge + Charges(hs - {h})
    decreases hs
  {
    var g :| g in hs && Charges(hs) == g.charge + Charges(hs - {g});
    if g != h {
      ChargesSplit(hs - {g}, h);
      ChargesSplit(hs - {h}, g);
      assert hs - {g} - {h} == hs - {h} - {g};
    }
  }

  /** The container as a state machine: `order` lists the entries only the table refers to, oldest
      first; `clients` are the handles given out; `owned` are the entries anyone refers to; `gone`
      are those freed or handed over as evicted. */
  datatype Ledger = Ledger(order: seq<Handle>, clients: multiset<Handle>, owned: set<Handle>, gone: set<Handle>) {

    /** `nodes` are the handles the table refers to. */
    ghost predicate Balanced(nodes: set<Handle>) {
      && nodes <= owned && owned !! gone
      && (forall h :: h in clients ==> h in owned)
      && (forall h :: h in owned ==> h in nodes || h in clients)
      && (forall h :: h in order ==> h in nodes && h !in clients)
      && (forall h :: h in nodes && h !in clients ==> h in order)
      && NoDuplicates(order)
    }

    /** A client takes a handle on an entry of the table. */
    ghost function Held(e: Handle): Ledger {
      this.(order := Except(order, e), clients := clients + multiset{e})
    }

    /** A client gives a handle back: with its last, an entry of the table becomes the newest of the
        list, and any other entry is freed. */
    ghost function Released(nodes: set<Handle>, e: Handle): Ledger {
      var clients' := clients - multiset{e};
      if e in clients' then this.(clients := clients')
      else if e in nodes then this.(clients := clients', order := order + [e])
      else this.(clients := clients', owned := owned - {e}, gone := gone + {e})
    }

    /** The table stops referring to e: it is freed unless clients hold it. */
    ghost function Dropped(e: Handle): Ledger {
      if e in clients then this
      else this.(order := Except(order, e), owned := owned - {e}, gone := gone + {e})
    }

    /** The n oldest entries of the list leave the container. */
    ghost function Evicted(n: nat): Ledger
      requires n <= |order|
    {
      var out := Members(order[..n]);
      this.(order := order[n..], owned := owned - out, gone := gone + out)
    }

    /** A new entry, referred to by the table and by the client that made it. */
    ghost function Added(e: Handle): Ledger {
      this.(clients := clients + multiset{e}, owned := owned + {e})
    }
  }

  /** What the table lets go of is off the list, and gone exactly if no client holds it. */
  lemma DroppedShows(x: Ledger, nodes: set<Handle>, e: Handle)
    requires x.Balanced(nodes) && e in nodes
    ensures var y := x.Dropped(e);
            && e !in y.order && y.clients == x.clients
            && (e in y.owned <==> e in y.clients) && (e in y.gone <==> e !in y.clients)
  {
    DroppedKeeps(x, nodes, e);
  }

  /** A new entry is its maker's, not on the list, and stays so when the one it replaces goes. */
  lemma AddedShows(x: Ledger, nodes: set<Handle>, e: Handle, replaced: Handle?)
    requires x.Balanced(nodes) && e !in x.owned && e !in x.gone && (replaced != null ==> replaced in nodes)
    ensures var y := if replaced == null then x.Added(e) else x.Added(e).Dropped(replaced);
            e in y.owned && e in y.clients && e !in y.order && (replaced != null ==> replaced !in y.order)
  {
    AddedKeeps(x, nodes, e);
    if replaced != null { DroppedKeeps(x.Added(e), nodes + {e}, replaced); }
  }

  /** refs counts the table and the outstanding client handles; valid says the table refers to it. */
  ghost predicate Counted(nodes: set<Handle>, clients: multiset<Handle>, owned: set<Handle>)
    reads owned`refs, owned`valid
  {
    forall h :: h in owned ==>
      && h.refs == (if h in nodes then 1 else 0) + clients[h]
      && (h.valid <==> h in nodes)
  }

  /** A handle off the list has no list links (so it is never its own neighbour). */
  ghost predicate Loose(order: seq<Handle>, owned: set<Handle>)
    reads owned`next, owned`prev
  {
    forall h :: h in owned && h !in order ==> h.next == null && h.prev == null
  }

  /** The list without h. */
  ghost function Except(order: seq<Handle>, h: Handle?): seq<Handle> {
    if order == [] then []
    else if order[0] == h then order[1..]
    else [order[0]] + Except(order[1..], h)
  }

  lemma {:induction false} ExceptAbsent(order: seq<Handle>, h: Handle?)
    requires h !in order
    ensures Except(order, h) == order
  {
    if order != [] { ExceptAbsent(order[1..], h); }
  }

  lemma {:induction false} ExceptAt(order: seq<Handle>, i: nat)
    requires i < |order| && forall j :: 0 <= j < i ==> order[j] != order[i]
    ensures Except(order, order[i]) == Drop(order, i)
  {
    if i > 0 {
      ExceptAt(order[1..], i - 1);
      assert Drop(order, i) == [order[0]] + Drop(order[1..], i - 1);
    }
  }

  /** Summed charges of a stretch of the list. */
  function ChargesOf(order: seq<Handle>): nat {
    if order == [] then 0 else order[0].charge + ChargesOf(order[1..])
  }

  /** How many handles evict takes, oldest first, to reach the requested size. */
  function EvictLength(order: seq<Handle>, size: int): nat {
    if size <= 0 || order == [] then 0 else 1 + EvictLength(order[1..], size - order[0].charge)
  }

  /** The shortest oldest-first prefix whose charges reach the size, or the whole list. */
  ghost predicate Least(order: seq<Handle>, size: int, n: nat) {
    && n <= |order|
    && (ChargesOf(order[..n]) >= size || n == |order|)
    && (forall k :: 0 <= k < n ==> ChargesOf(order[..k]) < size)
  }

  lemma {:induction false} EvictLengthIsLeast(order: seq<Handle>, size: int)
    ensures Least(order, size, EvictLength(order, size))
  {
    if size > 0 && order != [] {
      var rest, size' := order[1..], size - order[0].charge;
      EvictLengthIsLeast(rest, size');
      var n := EvictLength(order, size);
      assert order[..n][1..] == rest[..n - 1];
      forall k | 0 <= k < n
        ensures ChargesOf(order[..k]) < size
      {
        if k > 0 { assert order[..k][1..] == rest[..k - 1]; }
      }
    }
  }

  lemma EvictLengthStep(order: seq<Handle>, size: int)
    ensures EvictLength(order, size) ==
            if size <= 0 || order == [] then 0 else 1 + EvictLength(order[1..], size - order[0].charge)
  {}

  // ----- What each kind of step does to the ledger ---------------------------------------------------

  lemma DropMembers(order: seq<Handle>, i: nat)
    requires i < |order| && NoDuplicates(order)
    ensures NoDuplicates(Drop(order, i)) && Except(order, order[i]) == Drop(order, i)
    ensures forall x :: x in Drop(order, i) ==> x in order && x != order[i]
    ensures forall x :: x in order && x != order[i] ==> x in Drop(order, i)
  {
    ExceptAt(order, i);
    DropLeaves(order, i, Drop(order, i));
  }

  lemma DropLeaves(order: seq<Handle>, i: nat, rest: seq<Handle>)
    requires i < |order| && NoDuplicates(order) && |rest| == |order| - 1
    requires forall k :: 0 <= k < |rest| ==> rest[k] == order[if k < i then k else k + 1]
    ensures NoDuplicates(rest)
    ensures forall x :: x in rest ==> x in order && x != order[i]
    ensures forall x :: x in order && x != order[i] ==> x in rest
  {
    forall x | x in order && x != order[i]
      ensures x in rest
    {
      var k :| 0 <= k < |order| && order[k] == x;
      assert rest[if k < i then k else k - 1] == x;
    }
  }

  /** Where on the list an entry of the table is that no client holds. */
  lemma OnList(l: Ledger, nodes: set<Handle>, e: Handle) returns (i: nat)
    requires l.Balanced(nodes) && e in nodes && e !in l.clients
    ensures i < |l.order| && l.order[i] == e && Except(l.order, e) == Drop(l.order, i)
    ensures NoDuplicates(l.order) && NoDuplicates(Drop(l.order, i))
    ensures forall x :: x in Drop(l.order, i) ==> x in l.order && x != e
    ensures forall x :: x in l.order && x != e ==> x in Drop(l.order, i)
  {
    i :| 0 <= i < |l.order| && l.order[i] == e;
    DropMembers(l.order, i);
  }

  lemma BalancedFacts(l: Ledger, nodes: set<Handle>, e: Handle)
    requires l.Balanced(nodes)
    ensures NoDuplicates(l.order) && forall h :: h in l.order ==> h in l.owned
    ensures e in nodes || e in l.clients ==> e in l.owned
    ensures e in l.clients || e !in nodes ==> e !in l.order
    ensures e in l.clients ==> Except(l.order, e) == l.order
  {
    if e !in l.order { ExceptAbsent(l.order, e); }
  }

  lemma HeldKeeps(l: Ledger, nodes: set<Handle>, e: Handle)
    requires l.Balanced(nodes) && e in nodes
    ensures l.Held(e).Balanced(nodes)
  {
    if e in l.clients { BalancedFacts(l, nodes, e); } else { var i := OnList(l, nodes, e); }
  }

  lemma ReleasedKeeps(l: Ledger, nodes: set<Handle>, e: Handle)
    requires l.Balanced(nodes) && e in l.clients
    ensures l.Released(nodes, e).Balanced(nodes)
    ensures e in l.owned && e !in l.order
    ensures Charges(l.owned) == e.charge + Charges(l.owned - {e})
  {
    ChargesSplit(l.owned, e);
  }

  lemma DroppedKeeps(l: Ledger, nodes: set<Handle>, e: Handle)
    requires l.Balanced(nodes) && e in nodes
    ensures l.Dropped(e).Balanced(nodes - {e})
  {
    if e !in l.clients { var i := OnList(l, nodes, e); }
  }

  lemma DroppedOldest(l: Ledger, nodes: set<Handle>)
    requires l.Balanced(nodes) && l.order != []
    ensures l.order[0] in nodes && l.Dropped(l.order[0]) == l.Evicted(1)
  {
    assert l.order[..1] == [l.order[0]];
    assert Members(l.order[..1]) == {l.order[0]};
  }

  ghost function Members(hs: seq<Handle>): set<Handle> {
    set h | h in hs
  }

  ghost function Tags(hs: seq<Handle>): set<Tag> {
    set h | h in hs :: h.tag
  }

  lemma EvictedNone(l: Ledger, m: map<Tag, Handle>)
    ensures l.Evicted(0) == l && m - Tags(l.order[..0]) == m && l.order[0..] == l.order
  {
    assert Tags(l.order[..0]) == {};
  }

  lemma EvictedNext(l: Ledger, n: nat)
    requires n < |l.order|
    ensures l.Evicted(n).order == l.order[n..] && l.Evicted(n + 1).order == l.order[n + 1..]
    ensures l.Evicted(n).Evicted(1) == l.Evicted(n + 1) && l.Evicted(n + 1).owned <= l.owned
    ensures Tags(l.order[..n + 1]) == Tags(l.order[..n]) + {l.order[n].tag}
    ensures l.order[..n + 1] == l.order[..n] + [l.order[n]] && l.order[n..][1..] == l.order[n + 1..]
  {
    assert l.order[n..][..1] == [l.order[n]];
    assert l.order[..n + 1] == l.order[..n] + [l.order[n]];
    assert Members(l.order[..n + 1]) == Members(l.order[..n]) + Members(l.order[n..][..1]);
  }

  lemma AddedKeeps(l: Ledger, nodes: set<Handle>, e: Handle)
    requires l.Balanced(nodes) && e !in l.owned && e !in l.gone
    ensures l.Added(e).Balanced(nodes + {e})
  {}

  // ----- Steps and runs --------------------------------------------------------------------------------

  /** A shard: its ledger, and the handles its table refers to. */
  datatype Shard = Shard(l: Ledger, nodes: set<Handle>)

  /** A client takes a handle or gives one back, the table lets go of an entry, or a new entry comes. */
  datatype Event = Took(e: Handle) | Gave(e: Handle) | LetGo(e: Handle) | Came(e: Handle)

  ghost predicate Can(a: Shard, v: Event) {
    match v
    case Took(e) => e in a.nodes
    case Gave(e) => e in a.l.clients
    case LetGo(e) => e in a.nodes
    case Came(e) => e !in a.l.owned && e !in a.l.gone
  }

  ghost function Do(a: Shard, v: Event): Shard {
    match v
    case Took(e) => a.(l := a.l.Held(e))
    case Gave(e) => a.(l := a.l.Released(a.nodes, e))
    case LetGo(e) => Shard(a.l.Dropped(e), a.nodes - {e})
    case Came(e) => Shard(a.l.Added(e), a.nodes + {e})
  }

  /** From a to b by just these steps. */
  ghost predicate Went(a: Shard, events: seq<Event>, b: Shard)
    decreases |events|
  {
    if events == [] then b == a else Can(a, events[0]) && Went(Do(a, events[0]), events[1..], b)
  }

  lemma {:induction false} WentOn(a: Shard, events: seq<Event>, b: Shard, more: seq<Event>, c: Shard)
    requires Went(a, events, b) && Went(b, more, c)
    ensures Went(a, events + more, c)
    decreases |events|
  {
    if events == [] {
      assert events + more == more;
    } else {
      WentOn(Do(a, events[0]), events[1..], b, more, c);
      assert (events + more)[1..] == events[1..] + more;
    }
  }

  lemma WentNone(a: Shard)
    ensures Went(a, [], a)
  {}

  lemma WentOne(a: Shard, v: Event)
    requires Can(a, v)
    ensures Went(a, [v], Do(a, v))
  {
    assert [v][1..] == [];
  }

  lemma WentTwo(a: Shard, v: Event, w: Event)
    requires Can(a, v) && Can(Do(a, v), w)
    ensures Went(a, [v, w], Do(Do(a, v), w))
  {
    hide Can, Do;
    WentOne(a, v);
    WentOne(Do(a, v), w);
    WentOn(a, [v], Do(a, v), [w], Do(Do(a, v), w));
    assert [v] + [w] == [v, w];
  }

  /** The table lets go of these, one after the other. */
  ghost function LetGos(hs: seq<Handle>): (events: seq<Event>)
    ensures |events| == |hs|
  {
    seq(|hs|, i requires 0 <= i < |hs| => LetGo(hs[i]))
  }

  lemma LetGosMore(hs: seq<Handle>, n: nat)
    requires n < |hs|
    ensures LetGos(hs[..n + 1]) == LetGos(hs[..n]) + [LetGo(hs[n])]
  {}

  lemma StepKeeps(a: Shard, v: Event)
    requires a.l.Balanced(a.nodes) && Can(a, v)
    ensures Do(a, v).l.Balanced(Do(a, v).nodes)
    ensures a.l.gone <= Do(a, v).l.gone && a.l.owned <= Do(a, v).l.owned + Do(a, v).l.gone
  {
    hide Ledger.Balanced;
    match v
    case Took(e) => HeldKeeps(a.l, a.nodes, e);
    case Gave(e) => ReleasedKeeps(a.l, a.nodes, e);
    case LetGo(e) => DroppedKeeps(a.l, a.nodes, e);
    case Came(e) => AddedKeeps(a.l, a.nodes, e);
  }

  /** No handle is lost or leaves twice: over any run, what was owned is still owned or gone, what was
      gone is gone for good, and at its end no held entry is on the list or gone. */
  lemma {:induction false} LeavesOnce(a: Shard, events: seq<Event>, b: Shard)
    requires a.l.Balanced(a.nodes) && Went(a, events, b)
    ensures b.l.Balanced(b.nodes)
    ensures a.l.gone <= b.l.gone && a.l.owned <= b.l.owned + b.l.gone && a.l.gone !! b.l.owned
    ensures forall h :: h in b.l.clients ==> h !in b.l.order && h !in b.l.gone
    decreases |events|
  {
    if events != [] {
      hide Can, Do;
      StepKeeps(a, events[0]);
      LeavesOnce(Do(a, events[0]), events[1..], b);
    }
  }

  // ----- Recency ---------------------------------------------------------------------------------------

  /** When a handle on e was last given back, or -1. */
  ghost function LastGave(events: seq<Event>, e: Handle): (t: int)
    ensures -1 <= t < |events|
  {
    if events == [] then -1
    else
      var t := LastGave(events[1..], e);
      if t >= 0 then t + 1 else if events[0] == Gave(e) then 0 else -1
  }

  ghost predicate Precedes(order: seq<Handle>, x: Handle, y: Handle) {
    exists i, j :: 0 <= i < j < |order| && order[i] == x && order[j] == y
  }

  lemma {:induction false} ExceptPrecedes(order: seq<Handle>, e: Handle, x: Handle, y: Handle)
    requires Precedes(Except(order, e), x, y)
    ensures Precedes(order, x, y)
  {
    var rest := Except(order, e);
    var i, j :| 0 <= i < j < |rest| && rest[i] == x && rest[j] == y;
    if order[0] == e {
      assert order[i + 1] == x && order[j + 1] == y;
    } else {
      var tail := Except(order[1..], e);
      assert rest == [order[0]] + tail;
      if i == 0 {
        ExceptFrom(order[1..], e, y);
        var k :| 0 <= k < |order[1..]| && order[1..][k] == y;
        assert order[0] == x && order[k + 1] == y;
      } else {
        assert tail[i - 1] == x && tail[j - 1] == y;
        ExceptPrecedes(order[1..], e, x, y);
        var k, m :| 0 <= k < m < |order[1..]| && order[1..][k] == x && order[1..][m] == y;
        assert order[k + 1] == x && order[m + 1] == y;
      }
    }
  }

  lemma {:induction false} ExceptFrom(order: seq<Handle>, e: Handle, y: Handle)
    requires y in Except(order, e)
    ensures y in order
  {
    if order[0] != e && y != order[0] { ExceptFrom(order[1..], e, y); }
  }

  /** A step leaves the order of the list as it is, but for an entry that comes to its end. */
  lemma StepOrder(a: Shard, v: Event, x: Handle, y: Handle)
    requires a.l.Balanced(a.nodes) && Can(a, v) && Precedes(Do(a, v).l.order, x, y)
    ensures v != Gave(x) && (v == Gave(y) || Precedes(a.l.order, x, y))
  {
    match v
    case Took(e) => ExceptPrecedes(a.l.order, e, x, y);
    case LetGo(e) => if e !in a.l.clients { ExceptPrecedes(a.l.order, e, x, y); }
    case Came(e) =>
    case Gave(e) =>
      var now := Do(a, v).l.order;
      var i, j :| 0 <= i < j < |now| && now[i] == x && now[j] == y;
      assert now == a.l.order || now == a.l.order + [e];
      assert i < |a.l.order| && a.l.order[i] == x;
      if j < |a.l.order| { assert a.l.order[j] == y; }
  }

  /** The list is in the order in which handles on its entries were last given back, after those not
      given back at all, which stay as they were. */
  lemma {:induction false} ListedByRecency(a: Shard, events: seq<Event>, b: Shard, x: Handle, y: Handle)
    requires a.l.Balanced(a.nodes) && Went(a, events, b) && Precedes(b.l.order, x, y)
    ensures LastGave(events, x) < LastGave(events, y) ||
          (LastGave(events, x) == -1 == LastGave(events, y) && Precedes(a.l.order, x, y))
    decreases |events|
  {
    if events != [] {
      hide Can, Do, Ledger.Balanced, Precedes;
      StepKeeps(a, events[0]);
      ListedByRecency(Do(a, events[0]), events[1..], b, x, y);
      if Precedes(Do(a, events[0]).l.order, x, y) { StepOrder(a, events[0], x, y); }
    }
  }

  // ----- Evicting the oldest ---------------------------------------------------------------------------

  /** The n oldest entries have left the container, one after the other. */
  ghost predicate Evicting(first: Shard, m0: map<Tag, Handle>, n: nat, now: Shard, m: map<Tag, Handle>) {
    && n <= |first.l.order| && now.l == first.l.Evicted(n) && m == m0 - Tags(first.l.order[..n])
    && Went(first, LetGos(first.l.order[..n]), now)
  }

  lemma EvictingNone(a: Shard, m: map<Tag, Handle>)
    ensures Evicting(a, m, 0, a, m)
  {
    EvictedNone(a.l, m);
    WentNone(a);
    assert LetGos(a.l.order[..0]) == [];
  }

  lemma EvictingNext(first: Shard, m0: map<Tag, Handle>, n: nat, before: Shard, mb: map<Tag, Handle>, now: Shard,
                     m: map<Tag, Handle>, e: Handle)
    requires Evicting(first, m0, n, before, mb) && before.l.order != [] && e == before.l.order[0]
    requires now.l == before.l.Evicted(1) && m == mb - {e.tag} && Went(before, [LetGo(e)], now)
    ensures Evicting(first, m0, n + 1, now, m)
    ensures n < |first.l.order| && first.l.order[n] == e && now.l.order == first.l.order[n + 1..]
    ensures now.l.owned <= before.l.owned && now.l.order == before.l.order[1..]
    ensures first.l.order[..n + 1] == first.l.order[..n] + [e]
  {
    hide Tags, Went, LetGos;
    EvictedNext(first.l, n);
    WentOn(first, LetGos(first.l.order[..n]), before, [LetGo(e)], now);
    LetGosMore(first.l.order, n);
  }

  lemma EvictingIs(first: Shard, m0: map<Tag, Handle>, n: nat, now: Shard, m: map<Tag, Handle>)
    requires Evicting(first, m0, n, now, m)
    ensures n <= |first.l.order| && now.l == first.l.Evicted(n) && m == m0 - Tags(first.l.order[..n])
    ensures Went(first, LetGos(first.l.order[..n]), now)
  {}

  class LRUContainer {
    const lru: Handle  // dummy head: lru.next is the oldest entry, lru.prev the newest
    const table: HandleTable
    var usage: nat
    var lookupCount: nat
    ghost var l: Ledger

    ghost function Now(): Shard
      reads `l, table`nodes
    {
      Shard(l, table.nodes)
    }

    ghost predicate Valid()
      reads this, table, table.list, table.nodes`nextHash, lru, l.order`next, l.order`prev, l.owned
    {
      && l.Balanced(table.nodes)
      && usage == Charges(l.owned)
      && Sound(table.nodes, l)
    }

    /** The counts, marks and links of all handles are those the ledger x calls for, `ns` being the
        handles on which the table's reference is counted. */
    ghost predicate Sound(ns: set<Handle>, x: Ledger)
      reads table, table.list, table.nodes`nextHash, lru`next, lru`prev, x.order`next, x.order`prev, x.owned
    {
      && table.Valid() && table.nodes <= x.owned
      && NoDuplicates(x.order) && (forall h :: h in x.order ==> h in x.owned)
      && Counted(ns, x.clients, x.owned)
      && Loose(x.order, x.owned)
      && Ring(lru, x.order)
      && lru !in x.owned && lru !in x.gone
    }

    constructor ()
      ensures Valid() && Now() == Shard(Ledger([], multiset{}, {}, {}), {}) && usage == 0 && table.m == map[]
      ensures fresh(lru) && fresh(table) && fresh(table.list)
    {
      hide HandleTable.Valid;
      var dummy := new Handle(Tag(0, []), 0);
      dummy.next, dummy.prev := dummy, dummy;
      lru := dummy;
      table := new HandleTable();
      usage, lookupCount := 0, 0;
      l := Ledger([], multiset{}, {}, {});
    }

    method Lookup(tag: Tag) returns (e: Handle?)
      requires Valid()
      modifies `l, `lookupCount, lru`next, lru`prev, l.owned`next, l.owned`prev, l.owned`refs
      ensures Valid()
      ensures e == if tag in table.m then table.m[tag] else null
      ensures l == if e == null then old(l) else old(l).Held(e)
      ensures e != null ==> e in l.clients && e !in l.order
      ensures Went(old(Now()), if e == null then [] else [Took(e)], Now())
    {
      hide HandleTable.Valid, Ledger.Balanced, Ledger.Held, Charges, Went;
      WentNone(Now());
      assert table.Valid();
      lookupCount := lookupCount + 1;
      e := table.Lookup(tag);
      if e != null {
        WentOne(Now(), Took(e));
        Hold(e);
      }
    }

    /** A client gets one more handle on an entry of the table. */
    method Hold(e: Handle)
      requires Valid() && e in table.nodes
      modifies `l, lru`next, lru`prev, l.owned`next, l.owned`prev, l.owned`refs
      ensures Valid() && l == old(l).Held(e)
      ensures e in l.clients && e !in l.order
    {
      hide Sound, Ledger.Balanced, Charges, Except;
      Standing(e);
      HeldKeeps(l, table.nodes, e);
      BalancedFacts(l, table.nodes, e);
      ghost var x := l;
      if e.refs == 1 {
        ghost var i := OnList(l, table.nodes, e);
        TakeOff(e, i, table.nodes, x);
        x := x.(order := Drop(x.order, i));
      }
      Ref(e, table.nodes, x);
      l := l.Held(e);
      BalancedFacts(l, table.nodes, e);
    }

    /** What the count and the mark of a handle say. */
    lemma Standing(e: Handle)
      requires Valid() && (e in table.nodes || e in l.clients)
      ensures e in l.owned && e.refs > 0
      ensures e.refs == 1 <==> (e in table.nodes && e !in l.clients) || (e !in table.nodes && l.clients[e] == 1)
      ensures e.valid <==> e in table.nodes
    {}

    /** Unlinks an entry from the list. */
    method TakeOff(e: Handle, ghost i: nat, ghost ns: set<Handle>, ghost x: Ledger)
      requires Sound(ns, x) && i < |x.order| && x.order[i] == e
      modifies lru`next, lru`prev, x.owned`next, x.owned`prev
      ensures Sound(ns, x.(order := Drop(x.order, i)))
    {
      hide Ring, HandleTable.Valid;
      DropMembers(x.order, i);
      LruRemove(lru, e, x.order, i);
    }

    /** Links an entry in as the newest of the list. */
    method PutOn(e: Handle, ghost ns: set<Handle>, ghost x: Ledger)
      requires Sound(ns, x) && e in x.owned && e !in x.order
      modifies lru`next, lru`prev, x.owned`next, x.owned`prev
      ensures Sound(ns, x.(order := x.order + [e]))
    {
      hide Ring, HandleTable.Valid;
      LruAppend(lru, e, x.order);
    }

    method Ref(e: Handle, ghost ns: set<Handle>, ghost x: Ledger)
      requires Sound(ns, x) && e in x.owned
      modifies e`refs
      ensures Sound(ns, x.(clients := x.clients + multiset{e}))
    {
      hide Ring, HandleTable.Valid;
      e.refs := e.refs + 1;
    }

    /** One reference fewer from a client; says what is left. */
    method Unref(e: Handle, ghost ns: set<Handle>, ghost x: Ledger) returns (last: bool)
      requires Sound(ns, x) && e in x.owned && e in x.clients
      modifies e`refs
      ensures Sound(ns, x.(clients := x.clients - multiset{e}))
      ensures last <==> e !in ns && e !in x.clients - multiset{e}
      ensures !last ==> (e.valid && e.refs == 1 <==> e in ns && e !in x.clients - multiset{e})
    {
      hide Ring, HandleTable.Valid;
      e.refs := e.refs - 1;
      return e.refs == 0;
    }

    /** A handle nobody refers to is no longer the container's business. */
    lemma Discarded(ns: set<Handle>, x: Ledger, e: Handle)
      requires Sound(ns, x) && e !in ns && e !in table.nodes && e !in x.order && e in x.owned
      ensures Sound(ns, x.(owned := x.owned - {e}, gone := x.gone + {e}))
    {
      hide Ring, HandleTable.Valid;
    }

    /** A client gives a handle back.  The last handle of an entry puts it on the list as newest when
        the table still has it, and frees it when not. */
    method Release(e: Handle?)
      requires Valid() && (e != null ==> e in l.clients)
      modifies `l, `usage, lru`next, lru`prev, l.owned`next, l.owned`prev, l.owned`refs
      ensures Valid()
      ensures l == if e == null then old(l) else old(l).Released(table.nodes, e)
      ensures e != null ==> l.clients == old(l).clients - multiset{e}
      ensures e != null && e !in l.clients ==>
                if e in table.nodes then l.order == old(l).order + [e] && usage == old(usage)
                else e in l.gone && e !in l.owned && usage == old(usage) - e.charge
      ensures Went(old(Now()), if e == null then [] else [Gave(e)], Now())
    {
      hide Sound, Ledger.Balanced, Ledger.Released, Charges, Went;
      WentNone(Now());
      if e != null {
        WentOne(Now(), Gave(e));
        ReleasedKeeps(l, table.nodes, e);
        var lastRef := Unref(e, table.nodes, l);
        ghost var x := l.(clients := l.clients - multiset{e});
        ReleasedIs(l, table.nodes, e);
        if lastRef { usage := usage - e.charge; }
        l := l.Released(table.nodes, e);
        Settle(e, lastRef, table.nodes, x);
      }
    }

    /** Where a handle goes after a client has given it back. */
    method Settle(e: Handle, last: bool, ghost ns: set<Handle>, ghost x: Ledger)
      requires Sound(ns, x) && e in x.owned && e !in x.order
      requires ns == table.nodes
      requires last <==> e !in ns && e !in x.clients
      requires !last ==> (e.valid && e.refs == 1 <==> e in ns && e !in x.clients)
      modifies lru`next, lru`prev, x.owned`next, x.owned`prev
      ensures last ==> Sound(ns, x.(owned := x.owned - {e}, gone := x.gone + {e}))
      ensures e in ns && e !in x.clients ==> Sound(ns, x.(order := x.order + [e]))
      ensures e in x.clients ==> Sound(ns, x)
    {
      hide Sound;
      if last {
        Discarded(ns, x, e);
      } else if e.valid && e.refs == 1 {
        PutOn(e, ns, x);
      }
    }

    /** The table has let go of e.  It is freed unless clients hold it, in which case the last of them
        to give it back will free it. */
    method Retire(e: Handle, ghost ns: set<Handle>)
      requires l.Balanced(ns) && usage == Charges(l.owned) && Sound(ns, l)
      requires e in ns && table.nodes == ns - {e}
      modifies `l, `usage, lru`next, lru`prev, l.owned`next, l.owned`prev, l.owned`refs, l.owned`valid
      ensures Valid() && l == old(l).Dropped(e)
    {
      hide Sound, Ledger.Balanced, Charges, Except;
      DroppedKeeps(l, ns, e);
      BalancedFacts(l, ns, e);
      ChargesSplit(l.owned, e);
      ghost var x := l;
      Invalidate(e, ns, x);
      l := l.Dropped(e);
      if e.refs == 0 {
        usage := usage - e.charge;
        ghost var i := OnList(x, ns, e);
        TakeOff(e, i, table.nodes, x);
        Discarded(table.nodes, x.(order := Drop(x.order, i)), e);
      }
    }

    method Invalidate(e: Handle, ghost ns: set<Handle>, ghost x: Ledger)
      requires Sound(ns, x) && e in ns && e in x.owned
      modifies e`refs, e`valid
      ensures Sound(ns - {e}, x)
      ensures e.refs == 0 <==> e !in x.clients
    {
      hide Ring, HandleTable.Valid;
      e.valid := false;
      e.refs := e.refs - 1;
    }

    /** A new entry takes the place of the one with the same tag, which is freed unless held. */
    method Insert(tag: Tag, charge: nat, mallocOk: bool) returns (e: Handle)
      requires Valid()
      modifies `l, `usage, table, table.list, lru`next, lru`prev, l.owned
      ensures Valid() && fresh(e) && e.tag == tag && e.charge == charge
      ensures table.m == old(table.m)[tag := e] && (table.list == old(table.list) || fresh(table.list))
      ensures l == if tag in old(table.m) then old(l).Added(e).Dropped(old(table.m)[tag]) else old(l).Added(e)
      ensures e in l.owned && e in l.clients && e !in l.order
      ensures tag in old(table.m) ==> old(table.m)[tag] !in l.order
      ensures Went(old(Now()), [Came(e)] + if tag in old(table.m) then [LetGo(old(table.m)[tag])] else [], Now())
    {
      hide Sound, Ledger.Balanced, Ledger.Dropped, Charges, HandleTable.Valid, Went;
      ghost var before := Now();
      e := new Handle(tag, charge);
      AddedKeeps(l, table.nodes, e);
      Joined(e);
      usage := usage + charge;
      l := l.Added(e);
      ghost var ns := table.nodes + {e};
      var replaced := FileInTable(e, mallocOk);
      AddedShows(before.l, before.nodes, e, replaced);
      if replaced != null {
        Retire(replaced, ns);
        WentTwo(before, Came(e), LetGo(replaced));
        assert [Came(e)] + [LetGo(replaced)] == [Came(e), LetGo(replaced)];
      } else {
        WentOne(before, Came(e));
        assert [Came(e)] + [] == [Came(e)];
      }
    }

    /** A fresh handle, with one reference for the table and one for the caller, fits the counts. */
    lemma Joined(e: Handle)
      requires Valid() && e !in l.owned && e != lru
      requires e.refs == 2 && e.valid && e.next == null && e.prev == null
      ensures Sound(table.nodes + {e}, l.Added(e)) && Charges(l.owned + {e}) == Charges(l.owned) + e.charge
    {
      hide Ring, HandleTable.Valid, Charges;
      ChargesSplit(l.owned + {e}, e);
      assert l.owned + {e} - {e} == l.owned;
    }

    method FileInTable(e: Handle, mallocOk: bool) returns (replaced: Handle?)
      requires Sound(table.nodes + {e}, l) && e !in table.nodes && e in l.owned
      modifies table, table.list, l.owned`nextHash
      ensures table.m == old(table.m)[e.tag := e] && (table.list == old(table.list) || fresh(table.list))
      ensures replaced == if e.tag in old(table.m) then old(table.m)[e.tag] else null
      ensures replaced == null ==> table.nodes == old(table.nodes) + {e}
      ensures replaced != null ==> replaced in old(table.nodes) && table.nodes == old(table.nodes) + {e} - {replaced}
      ensures Sound(old(table.nodes) + {e}, l)
    {
      hide Ring, Counted, Loose, HandleTable.Valid;
      ghost var nodes := table.nodes;
      if e.tag in table.m { table.FilingOf(e.tag); }
      replaced := table.Insert(e, mallocOk);
      assert replaced == null ==> table.nodes == nodes + {e};
      assert replaced != null ==> table.nodes == nodes + {e} - {replaced};
    }

    /** The entry of a tag, if there is one, leaves the table; clients may keep it alive. */
    method Erase(tag: Tag)
      requires Valid()
      modifies `l, `usage, lru`next, lru`prev, l.owned
      modifies table`elems, table`chains, table`nodes, table`m, table.list
      ensures Valid() && table.m == old(table.m) - {tag}
      ensures l == if tag in old(table.m) then old(l).Dropped(old(table.m)[tag]) else old(l)
      ensures tag in old(table.m) ==>
                var e := old(table.m)[tag];
                && e !in l.order && l.clients == old(l).clients
                && (e in l.owned <==> e in l.clients) && (e in l.gone <==> e !in l.clients)
      ensures Went(old(Now()), if tag in old(table.m) then [LetGo(old(table.m)[tag])] else [], Now())
    {
      hide Sound, Ledger.Balanced, Ledger.Dropped, Charges, HandleTable.Valid, Went;
      ghost var ns, before := table.nodes, Now();
      WentNone(before);
      var e := RemoveFromTable(tag);
      if e != null {
        DroppedShows(l, ns, e);
        Retire(e, ns);
        WentOne(before, LetGo(e));
      }
    }

    method RemoveFromTable(tag: Tag) returns (e: Handle?)
      requires Sound(table.nodes, l)
      modifies table`elems, table`chains, table`nodes, table`m, table.list, l.owned`nextHash
      ensures table.m == old(table.m) - {tag}
      ensures e == if tag in old(table.m) then old(table.m)[tag] else null
      ensures e == null ==> table.nodes == old(table.nodes)
      ensures e != null ==> e in old(table.nodes) && table.nodes == old(table.nodes) - {e}
      ensures Sound(old(table.nodes), l)
    {
      hide Ring, Counted, Loose, HandleTable.Valid;
      ghost var nodes := table.nodes;
      if tag in table.m { table.FilingOf(tag); }
      e := table.Remove(tag);
      assert e == null ==> table.nodes == nodes;
      assert e != null ==> table.nodes == nodes - {e};
    }

    /** Takes the oldest entry of the list out of the container. */
    method EvictOneEntry() returns (e: Handle)
      requires Valid() && l.order != []
      modifies `l, `usage, lru`next, lru`prev, l.owned
      modifies table`elems, table`chains, table`nodes, table`m, table.list
      ensures Valid() && e == old(l).order[0] && l == old(l).Evicted(1)
      ensures table.m == old(table.m) - {e.tag} && e.tag in old(table.m) && old(table.m)[e.tag] == e
      ensures Went(old(Now()), [LetGo(e)], Now())
    {
      hide Sound, Ledger.Balanced, Ledger.Dropped, Charges, HandleTable.Valid, Went;
      e := Oldest();
      ghost var ns := table.nodes;
      var removed := RemoveFromTable(e.tag);
      DroppedOldest(l, ns);
      WentOne(Shard(l, ns), LetGo(e));
      Retire(e, ns);
    }

    method Oldest() returns (e: Handle)
      requires Valid() && l.order != []
      ensures e == l.order[0] && e in table.nodes && e.tag in table.m && table.m[e.tag] == e
    {
      assert Joins(lru, l.order, 0);
      e := lru.next;
      table.Filing(e);
    }

    predicate ListEmpty()
      requires Valid()
      reads this, table, table.list, table.nodes`nextHash, lru, l.order`next, l.order`prev, l.owned
      ensures ListEmpty() <==> l.order == []
    {
      assert Joins(lru, l.order, 0);
      lru.next == lru
    }

    /** Takes entries off the list, oldest first, until their charges reach the size asked for. */
    method Evict(size: nat, evicted: seq<Handle>) returns (evicted': seq<Handle>)
      requires Valid()
      modifies `l, `usage, lru`next, lru`prev, l.owned
      modifies table`elems, table`chains, table`nodes, table`m, table.list
      ensures Valid()
      ensures var n := EvictLength(old(l).order, size);
              && n <= |old(l).order| && l == old(l).Evicted(n)
              && evicted' == evicted + old(l).order[..n] && Least(old(l).order, size, n)
              && table.m == old(table.m) - Tags(old(l).order[..n])
              && Went(old(Now()), LetGos(old(l).order[..n]), Now())
    {
      hide Sound, Ledger.Balanced, Charges, HandleTable.Valid, Evicting, EvictLength, Ledger.Evicted, Tags, LetGos,
           Went, Least;
      ghost var n, first, m := 0, Now(), table.m;
      evicted' := evicted;
      var evictedSize := 0;
      EvictingNone(first, m);
      while evictedSize < size && !ListEmpty()
        invariant Valid() && Evicting(first, m, n, Now(), table.m) && l.owned <= old(l.owned)
        invariant n <= |first.l.order| && l.order == first.l.order[n..]
        invariant evicted' == evicted + first.l.order[..n]
        invariant EvictLength(first.l.order, size) == n + EvictLength(l.order, size - evictedSize)
        decreases |first.l.order| - n
      {
        ghost var before, mb := Now(), table.m;
        var e := EvictOneEntry();
        EvictingNext(first, m, n, before, mb, Now(), table.m, e);
        EvictLengthStep(before.l.order, size - evictedSize);
        evicted' := evicted' + [e];
        evictedSize := evictedSize + e.charge;
        n := n + 1;
      }
      EvictLengthStep(l.order, size - evictedSize);
      EvictLengthIsLeast(first.l.order, size);
      EvictingIs(first, m, n, Now(), table.m);
    }

    /** Takes every entry off the list. */
    method Prune() returns (count: nat)
      requires Valid()
      modifies `l, `usage, lru`next, lru`prev, l.owned
      modifies table`elems, table`chains, table`nodes, table`m, table.list
      ensures Valid() && l.order == [] && count == |old(l).order|
      ensures l == old(l).Evicted(count) && table.m == old(table.m) - Tags(old(l).order)
      ensures Went(old(Now()), LetGos(old(l).order), Now())
    {
      hide Sound, Ledger.Balanced, Charges, HandleTable.Valid, Evicting, Ledger.Evicted, Tags, LetGos, Went;
      ghost var first, m := Now(), table.m;
      count := 0;
      EvictingNone(first, m);
      while !ListEmpty()
        invariant Valid() && Evicting(first, m, count, Now(), table.m) && l.owned <= old(l.owned)
        invariant count <= |first.l.order| && l.order == first.l.order[count..]
        decreases |first.l.order| - count
      {
        ghost var before, mb := Now(), table.m;
        var e := EvictOneEntry();
        EvictingNext(first, m, count, before, mb, Now(), table.m, e);
        count := count + 1;
      }
      EvictingIs(first, m, count, Now(), table.m);
      assert first.l.order[..count] == first.l.order;
    }
  }

  lemma ReleasedIs(l: Ledger, nodes: set<Handle>, e: Handle)
    ensures var x := l.(clients := l.clients - multiset{e});
            l.Released(nodes, e) ==
              if e in x.clients then x
              else if e in nodes then x.(order := x.order + [e])
              else x.(owned := x.owned - {e}, gone := x.gone + {e})
  {}
}
