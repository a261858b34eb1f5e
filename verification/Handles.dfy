/** The chained hash table of LRU handles (HandleTable), with its intrusive next_hash links. */
module Handles {
  import opened Common

  /** A handle's key is compared byte by byte (LRUKey), together with the hash stored beside it. */
  type Key = seq<byte>

  datatype Tag = Tag(hash: nat, key: Key)

  /** LRUHandle: one heap entry, linked into a bucket chain by nextHash and into the LRU ring by
      next and prev.  The payload and its deleter are not part of the model. */
  class Handle {
    const tag: Tag
    const charge: nat
    var nextHash: Handle?
    var next: Handle?
    var prev: Handle?
    var valid: bool
    var refs: nat

    constructor (tag: Tag, charge: nat)
      ensures this.tag == tag && this.charge == charge
      ensures next == null && prev == null && valid && refs == 2
    {
      this.tag, this.charge := tag, charge;
      next, prev, nextHash := null, null, null;
      valid, refs := true, 2;
    }
  }

  ghost function NodeAt(chain: seq<Handle>, i: nat): Handle? {
    if i < |chain| then chain[i] else null
  }

  /** The handles of a chain, linked by nextHash from `head` to null. */
  ghost predicate Linked(head: Handle?, chain: seq<Handle>)
    reads chain`nextHash
  {
    && head == NodeAt(chain, 0)
    && forall i :: 0 <= i < |chain| ==> chain[i].nextHash == NodeAt(chain, i + 1)
  }

  /** Number of handles in all chains. */
  ghost function Total(chains: seq<seq<Handle>>): nat {
    if chains == [] then 0 else Total(chains[..|chains| - 1]) + |chains[|chains| - 1]|
  }

  lemma {:induction false} TotalUpdate(chains: seq<seq<Handle>>, b: nat, chain: seq<Handle>)
    requires b < |chains|
    ensures Total(chains[b := chain]) == Total(chains) - |chains[b]| + |chain|
  {
    var n := |chains| - 1;
    if b == n {
      assert chains[b := chain][..n] == chains[..n];
    } else {
      TotalUpdate(chains[..n], b, chain);
      assert chains[b := chain][..n] == chains[..n][b := chain];
    }
  }

  lemma TotalPrefix(chains: seq<seq<Handle>>, i: nat)
    requires i < |chains|
    ensures Total(chains[..i + 1]) == Total(chains[..i]) + |chains[i]|
  {
    assert chains[..i + 1][..i] == chains[..i];
  }

  lemma {:induction false} TotalOfEmpty(chains: seq<seq<Handle>>)
    requires forall b :: 0 <= b < |chains| ==> chains[b] == []
    ensures Total(chains) == 0
  {
    if chains != [] { TotalOfEmpty(chains[..|chains| - 1]); }
  }

  /** The chains file exactly the handles `nodes`, each in the bucket of its hash, no tag twice. */
  ghost predicate Filed(chains: seq<seq<Handle>>, nodes: set<Handle>) {
    && |chains| > 0
    && (forall b, i :: 0 <= b < |chains| && 0 <= i < |chains[b]| ==>
          chains[b][i] in nodes && chains[b][i].tag.hash % |chains| == b)
    && (forall h :: h in nodes ==> h in chains[h.tag.hash % |chains|])
    && (forall b :: 0 <= b < |chains| ==> NoTagTwice(chains[b]))
  }

  ghost predicate NoTagTwice(chain: seq<Handle>) {
    forall i, j :: 0 <= i < |chain| && 0 <= j < |chain| && chain[i].tag == chain[j].tag ==> i == j
  }

  ghost function Without(nodes: set<Handle>, h: Handle?): set<Handle> {
    set x | x in nodes && x != h
  }

  /** The map from tags to handles that a set of handles stands for. */
  ghost predicate Maps(m: map<Tag, Handle>, nodes: set<Handle>) {
    && (forall h :: h in nodes ==> h.tag in m && m[h.tag] == h)
    && (forall t :: t in m ==> m[t] in nodes && m[t].tag == t)
  }

  lemma Missing(chains: seq<seq<Handle>>, nodes: set<Handle>, m: map<Tag, Handle>, tag: Tag)
    requires Filed(chains, nodes) && Maps(m, nodes)
    requires forall h :: h in chains[tag.hash % |chains|] ==> h.tag != tag
    ensures tag !in m
  {}

  lemma Present(chains: seq<seq<Handle>>, nodes: set<Handle>, m: map<Tag, Handle>, b: nat, i: nat)
    requires Filed(chains, nodes) && Maps(m, nodes)
    requires b < |chains| && i < |chains[b]|
    ensures var h := chains[b][i]; h in nodes && h.tag in m && m[h.tag] == h && h.tag.hash % |chains| == b
  {}

  class HandleTable {
    var list: array<Handle?>
    var elems: nat
    ghost var chains: seq<seq<Handle>>
    ghost var nodes: set<Handle>
    ghost var m: map<Tag, Handle>

    /** Everything but the promise that buckets are at least as many as handles. */
    ghost predicate Valid()
      reads this, list, nodes`nextHash
    {
      && list.Length == |chains| >= 4
      && PowerOfTwo(|chains|)
      && Filed(chains, nodes)
      && Maps(m, nodes)
      && elems == Total(chains) == |m|
      && forall b :: 0 <= b < |chains| ==> Linked(list[b], chains[b])
    }

    constructor ()
      ensures Valid() && m == map[] && nodes == {} && elems == 0 && fresh(list)
    {
      list := new Handle?[4](i => null);
      elems := 0;
      chains := [[], [], [], []];
      nodes, m := {}, map[];
      new;
      assert Pow2(2) == 4;
      TotalOfEmpty(chains);
    }

    /** The link that points to the handle of a tag, or the null link at the end of its chain:
        slot b of the list when prev is null, and prev.nextHash otherwise. */
    method FindPointer(tag: Tag) returns (b: nat, prev: Handle?, cur: Handle?, ghost i: nat)
      requires Valid()
      ensures b == tag.hash % list.Length && i <= |chains[b]|
      ensures cur == NodeAt(chains[b], i)
      ensures prev == if i == 0 then null else chains[b][i - 1]
      ensures if cur == null then tag !in m else tag in m && m[tag] == cur && cur.tag == tag
    {
      hide Filed, Maps, Total, PowerOfTwo;
      b := tag.hash % list.Length;
      prev, cur, i := null, list[b], 0;
      ghost var chain := chains[b];
      assert Linked(list[b], chain);
      while cur != null && cur.tag != tag
        invariant i <= |chain| && cur == NodeAt(chain, i)
        invariant prev == if i == 0 then null else chain[i - 1]
        invariant forall j :: 0 <= j < i ==> chain[j].tag != tag
        decreases |chain| - i
      {
        prev, cur := cur, cur.nextHash;
        i := i + 1;
      }
      if cur == null { Missing(chains, nodes, m, tag); } else { Present(chains, nodes, m, b, i); }
    }

    method Lookup(tag: Tag) returns (h: Handle?)
      requires Valid()
      ensures h == if tag in m then m[tag] else null
      ensures h != null ==> h in nodes && h.tag == tag
    {
      var b, prev, cur, i := FindPointer(tag);
      h := cur;
    }

    lemma Filing(h: Handle)
      requires Valid() && h in nodes
      ensures h.tag in m && m[h.tag] == h
    {}

    lemma FilingOf(tag: Tag)
      requires Valid() && tag in m
      ensures m[tag] in nodes && m[tag].tag == tag
    {}

    /** Writes through the link found by FindPointer; `rest` is what hangs on the new target. */
    method Relink(b: nat, prev: Handle?, h: Handle?, ghost i: nat, ghost rest: seq<Handle>)
      requires Valid() && b < list.Length && i <= |chains[b]|
      requires prev == if i == 0 then null else chains[b][i - 1]
      requires Linked(h, rest) && (prev != null ==> prev !in rest)
      modifies list, nodes`nextHash
      ensures forall c :: 0 <= c < |chains| && c != b ==> Linked(list[c], chains[c])
      ensures Linked(list[b], chains[b][..i] + rest)
    {
      hide Linked, Filed, Maps, Total, PowerOfTwo, NodeAt;
      ghost var chain, head := chains[b], list[b];
      assert Linked(head, chain);
      if prev == null {
        list[b] := h;
        assert chain[..i] + rest == rest;
      } else {
        Apart(chains, nodes, b, i - 1);
        Unlink(head, chain);
        prev.nextHash := h;
        Splice(head, chain, i, rest, h);
      }
    }

    /** Files a handle, in the place of the one with the same tag if there is one. */
    method Insert(h: Handle, mallocOk: bool) returns (replaced: Handle?)
      requires Valid() && h !in nodes
      modifies this, list, nodes`nextHash, h`nextHash
      ensures Valid() && m == old(m)[h.tag := h]
      ensures replaced == if h.tag in old(m) then old(m)[h.tag] else null
      ensures nodes == Without(old(nodes), replaced) + {h}
      ensures list == old(list) || fresh(list)
      ensures mallocOk && old(elems <= list.Length) ==> elems <= list.Length
    {
      hide Linked, Filed, Maps, Total, PowerOfTwo, NodeAt;
      var b, prev, cur, i := FindPointer(h.tag);
      Adopt(h, b, prev, cur, i);
      replaced := cur;
      if cur == null && elems > list.Length {
        var ok := Resize(mallocOk);
        if !ok {
          return null;
        }
      }
    }

    /** Hangs a handle on the link found for its tag. */
    method Adopt(h: Handle, b: nat, prev: Handle?, cur: Handle?, ghost i: nat)
      requires Valid() && h !in nodes
      requires b == h.tag.hash % list.Length && i <= |chains[b]| && cur == NodeAt(chains[b], i)
      requires prev == if i == 0 then null else chains[b][i - 1]
      requires if cur == null then h.tag !in m else h.tag in m && m[h.tag] == cur && cur.tag == h.tag
      modifies `elems, `chains, `nodes, `m, list, nodes`nextHash, h`nextHash
      ensures Valid() && m == old(m)[h.tag := h]
      ensures nodes == Without(old(nodes), cur) + {h}
      ensures elems == old(elems) + if cur == null then 1 else 0
    {
      hide Linked, Filed, Maps, Total, PowerOfTwo;
      if cur == null {
        EndOf(chains[b], i);
        Append(h, b, prev);
      } else {
        Exchange(h, b, prev, cur, i);
      }
    }

    method Append(h: Handle, b: nat, prev: Handle?)
      requires Valid() && h !in nodes && h.tag !in m && b == h.tag.hash % list.Length
      requires prev == if chains[b] == [] then null else chains[b][|chains[b]| - 1]
      modifies `elems, `chains, `nodes, `m, list, nodes`nextHash, h`nextHash
      ensures Valid() && m == old(m)[h.tag := h] && nodes == old(nodes) + {h} && elems == old(elems) + 1
    {
      hide Linked, Filed, Maps, Total, PowerOfTwo, NodeAt;
      ghost var chain := chains[b];
      Tail(list[b], chain, |chain|);
      NotAhead(chains, nodes, b, |chain|);
      h.nextHash := null;
      LinkFront(h, []);
      assert [h] + [] == [h];
      Relink(b, prev, h, |chain|, [h]);
      assert chain[..|chain|] + [h] == chain + [h];
      TotalUpdate(chains, b, chain + [h]);
      FileNew(chains, nodes, m, h);
      MapNew(nodes, m, h);
      elems := elems + 1;
      chains := chains[b := chain + [h]];
      nodes, m := nodes + {h}, m[h.tag := h];
    }

    method Exchange(h: Handle, b: nat, prev: Handle?, cur: Handle, ghost i: nat)
      requires Valid() && h !in nodes && b == h.tag.hash % list.Length && i < |chains[b]| && cur == chains[b][i]
      requires prev == if i == 0 then null else chains[b][i - 1]
      requires h.tag in m && m[h.tag] == cur && cur.tag == h.tag
      modifies `chains, `nodes, `m, list, nodes`nextHash, h`nextHash
      ensures Valid() && m == old(m)[h.tag := h] && nodes == old(nodes) - {cur} + {h}
    {
      hide Linked, Filed, Maps, Total, PowerOfTwo, NodeAt;
      ghost var chain := chains[b];
      Tail(list[b], chain, i);
      NotAhead(chains, nodes, b, i);
      h.nextHash := cur.nextHash;
      LinkFront(h, chain[i + 1..]);
      Relink(b, prev, h, i, [h] + chain[i + 1..]);
      assert chain[..i] + ([h] + chain[i + 1..]) == chain[i := h];
      TotalUpdate(chains, b, chain[i := h]);
      FileReplace(chains, nodes, m, b, i, h);
      chains := chains[b := chain[i := h]];
      nodes, m := nodes - {cur} + {h}, m[h.tag := h];
    }

    /** Takes the handle of a tag off its chain. */
    method Remove(tag: Tag) returns (removed: Handle?)
      requires Valid()
      modifies `elems, `chains, `nodes, `m, list, nodes`nextHash
      ensures Valid() && m == old(m) - {tag}
      ensures removed == if tag in old(m) then old(m)[tag] else null
      ensures nodes == Without(old(nodes), removed)
      ensures elems <= old(elems)
    {
      hide Linked, Filed, Maps, Total, PowerOfTwo;
      var b, prev, cur, i := FindPointer(tag);
      removed := cur;
      if cur != null {
        Detach(b, prev, cur, i);
      } else {
        assert m - {tag} == m && Without(nodes, cur) == nodes;
      }
    }

    method Detach(b: nat, prev: Handle?, cur: Handle, ghost i: nat)
      requires Valid() && b < list.Length && i < |chains[b]| && cur == chains[b][i]
      requires prev == if i == 0 then null else chains[b][i - 1]
      modifies `elems, `chains, `nodes, `m, list, nodes`nextHash
      ensures Valid() && m == old(m) - {cur.tag}
      ensures nodes == Without(old(nodes), cur)
      ensures elems <= old(elems)
    {
      hide Linked, Filed, Maps, Total, PowerOfTwo, NodeAt, Without;
      ghost var chain := chains[b];
      ghost var chain' := chain[..i] + chain[i + 1..];
      Unfile(chains, nodes, m, b, i);
      Tail(list[b], chain, i);
      NotAhead(chains, nodes, b, i);
      Relink(b, prev, cur.nextHash, i, chain[i + 1..]);
      TotalUpdate(chains, b, chain');
      chains := chains[b := chain'];
      elems := elems - 1;
      nodes, m := Without(nodes, cur), m - {cur.tag};
    }

    /** Moves every handle to the front of its chain in a new list of at least `elems` buckets. */
    method Resize(mallocOk: bool) returns (ok: bool)
      requires Valid()
      modifies `list, `chains, nodes`nextHash
      ensures Valid() && ok == mallocOk
      ensures if ok then fresh(list) && elems <= list.Length else list == old(list)
    {
      hide Linked, Filed, Maps, Total, NodeAt, PowerOfTwo, MovedBelow;
      var newLength := NewLength();
      if !mallocOk {
        return false;
      }
      var newList := new Handle?[newLength](i => null);
      var count := 0;
      ghost var moved: set<Handle>, newChains: seq<seq<Handle>> := {}, seq(newLength, _ => []);
      FiledEmpty(newChains);
      TotalOfEmpty(chains[..0]);
      MovedNone(chains, nodes);
      for i := 0 to list.Length
        invariant list == old(list) && chains == old(chains)
        invariant fresh(newList) && Filed(newChains, moved) && |newChains| == newLength
        invariant forall c :: 0 <= c < newLength ==> Linked(newList[c], newChains[c])
        invariant forall c :: i <= c < |chains| ==> Linked(list[c], chains[c])
        invariant count == Total(newChains) == Total(chains[..i])
        invariant MovedBelow(chains, nodes, moved, i, 0)
      {
        TotalPrefix(chains, i);
        count, newChains, moved := MoveBucket(newList, i, count, newChains, moved);
      }
      assert chains[..list.Length] == chains;
      MovedAll(chains, nodes, moved);
      if elems != count {
        assert false;  // "_elems not match new count" is never reported
      }
      list, chains := newList, newChains;
      return true;
    }

    /** The least power of two from 4 up that is at least the number of handles. */
    method NewLength() returns (newLength: nat)
      ensures newLength >= 4 && PowerOfTwo(newLength) && elems <= newLength
      ensures newLength == 4 || newLength < 2 * elems
    {
      newLength := 4;
      assert Pow2(2) == 4;
      while newLength < elems
        invariant newLength >= 4 && PowerOfTwo(newLength)
        invariant newLength == 4 || newLength < 2 * elems
      {
        ghost var k: nat :| newLength == Pow2(k);
        assert 2 * newLength == Pow2(k + 1);
        newLength := 2 * newLength;
      }
    }

    /** Moves the handles of one bucket over. */
    method MoveBucket(newList: array<Handle?>, i: nat, count: nat,
                      ghost newChains: seq<seq<Handle>>, ghost moved: set<Handle>)
      returns (count': nat, ghost newChains': seq<seq<Handle>>, ghost moved': set<Handle>)
      requires Filed(chains, nodes) && Maps(m, nodes)
      requires list.Length == |chains| && i < |chains| && list != newList
      requires newList.Length == |newChains| > 0 && Filed(newChains, moved) && count == Total(newChains)
      requires forall c :: 0 <= c < |newChains| ==> Linked(newList[c], newChains[c])
      requires forall c :: i <= c < |chains| ==> Linked(list[c], chains[c])
      requires MovedBelow(chains, nodes, moved, i, 0)
      modifies newList, nodes`nextHash
      ensures |newChains'| == |newChains| && Filed(newChains', moved')
      ensures count' == Total(newChains') == count + |chains[i]|
      ensures forall c :: 0 <= c < |newChains'| ==> Linked(newList[c], newChains'[c])
      ensures forall c :: i < c < |chains| ==> Linked(list[c], chains[c])
      ensures MovedBelow(chains, nodes, moved', i + 1, 0)
    {
      hide Linked, Filed, Maps, Total, NodeAt, MovedBelow;
      count', newChains', moved' := count, newChains, moved;
      ghost var chain, j := chains[i], 0;
      var h := list[i];
      Tail(h, chain, 0);
      assert chain[0..] == chain;
      while h != null
        invariant |newChains'| == |newChains| && Filed(newChains', moved')
        invariant forall c :: 0 <= c < |newChains'| ==> Linked(newList[c], newChains'[c])
        invariant forall c :: i < c < |chains| ==> Linked(list[c], chains[c])
        invariant count' == Total(newChains') == count + j
        invariant j <= |chain| && MovedBelow(chains, nodes, moved', i, j)
        invariant h == NodeAt(chain, j) && Linked(h, chain[j..])
        decreases |chain| - j
      {
        AtNode(h, chain, j);
        MovedOne(chains, nodes, m, moved', i, j);
        Apart(chains, nodes, i, j);
        var next := h.nextHash;
        ghost var b := h.tag.hash % |newChains'|;
        FileFront(newChains', moved', nodes, m, h);
        PushFront(newList, newChains', moved', h);
        TotalUpdate(newChains', b, [h] + newChains'[b]);
        newChains', moved' := newChains'[b := [h] + newChains'[b]], moved' + {h};
        h := next;
        count' := count' + 1;
        j := j + 1;
      }
      EndOf(chain, j);
      MovedChain(chains, nodes, moved', i);
    }

    /** Puts a handle at the front of its chain in the new list. */
    method PushFront(newList: array<Handle?>, ghost newChains: seq<seq<Handle>>, ghost moved: set<Handle>, h: Handle)
      requires newList.Length == |newChains| && Filed(newChains, moved) && h !in moved
      requires forall c :: 0 <= c < |newChains| ==> Linked(newList[c], newChains[c])
      modifies newList, h`nextHash
      ensures var b := h.tag.hash % |newChains|;
              forall c :: 0 <= c < |newChains| ==> Linked(newList[c], newChains[b := [h] + newChains[b]][c])
    {
      hide Linked;
      var b := h.tag.hash % newList.Length;
      assert forall c :: 0 <= c < |newChains| ==> h !in newChains[c];
      h.nextHash := newList[b];
      LinkFront(h, newChains[b]);
      newList[b] := h;
    }
  }

  /** Handles already moved by Resize: those of the buckets below i, and j of bucket i. */
  ghost predicate MovedBelow(chains: seq<seq<Handle>>, nodes: set<Handle>, moved: set<Handle>, i: nat, j: nat)
    requires i <= |chains| && |chains| > 0 && (if i < |chains| then j <= |chains[i]| else j == 0)
  {
    && (forall h :: h in moved ==> h in nodes && (h.tag.hash % |chains| < i || (i < |chains| && h in chains[i][..j])))
    && (forall h :: h in nodes && h.tag.hash % |chains| < i ==> h in moved)
    && (i < |chains| ==> forall h :: h in chains[i][..j] ==> h in moved)
  }

  lemma MovedNone(chains: seq<seq<Handle>>, nodes: set<Handle>)
    requires |chains| > 0
    ensures MovedBelow(chains, nodes, {}, 0, 0)
  {}

  lemma MovedOne(chains: seq<seq<Handle>>, nodes: set<Handle>, m: map<Tag, Handle>, moved: set<Handle>, i: nat, j: nat)
    requires Filed(chains, nodes) && i < |chains| && j < |chains[i]| && MovedBelow(chains, nodes, moved, i, j)
    ensures chains[i][j] in nodes && chains[i][j] !in moved && moved <= nodes
    ensures MovedBelow(chains, nodes, moved + {chains[i][j]}, i, j + 1)
  {
    Apart(chains, nodes, i, j);
    assert chains[i][..j + 1] == chains[i][..j] + [chains[i][j]];
  }

  lemma MovedChain(chains: seq<seq<Handle>>, nodes: set<Handle>, moved: set<Handle>, i: nat)
    requires Filed(chains, nodes) && i < |chains| && MovedBelow(chains, nodes, moved, i, |chains[i]|)
    ensures MovedBelow(chains, nodes, moved, i + 1, 0)
  {
    assert chains[i][..|chains[i]|] == chains[i];
  }

  lemma MovedAll(chains: seq<seq<Handle>>, nodes: set<Handle>, moved: set<Handle>)
    requires |chains| > 0 && MovedBelow(chains, nodes, moved, |chains|, 0)
    ensures moved == nodes
  {}

  lemma FiledEmpty(chains: seq<seq<Handle>>)
    requires |chains| > 0 && forall b :: 0 <= b < |chains| ==> chains[b] == []
    ensures Filed(chains, {}) && Total(chains) == 0
    ensures forall b :: 0 <= b < |chains| ==> Linked(null, chains[b])
  {
    TotalOfEmpty(chains);
  }

  lemma FileFront(chains: seq<seq<Handle>>, moved: set<Handle>, nodes: set<Handle>, m: map<Tag, Handle>, h: Handle)
    requires Filed(chains, moved) && Maps(m, nodes) && moved <= nodes && h in nodes && h !in moved
    ensures var b := h.tag.hash % |chains|; Filed(chains[b := [h] + chains[b]], moved + {h})
  {
    forall x | x in moved
      ensures x.tag != h.tag
    {
      assert m[x.tag] == x && m[h.tag] == h;
    }
    FileOne(chains, moved, h, [h] + chains[h.tag.hash % |chains|], 0);
  }

  /** A chain with one more handle, of another tag, at position k. */
  lemma PutIn(was: seq<Handle>, h: Handle, chain: seq<Handle>, k: nat)
    requires k <= |was| && chain == was[..k] + [h] + was[k..] && NoTagTwice(was) && forall x :: x in was ==>
          x.tag != h.tag
    ensures NoTagTwice(chain) && forall x :: x in chain <==> x == h || x in was
  {
    assert was == was[..k] + was[k..];
    forall j | 0 <= j < |chain| && j != k
      ensures chain[j] == was[if j < k then j else j - 1] && chain[j] in was
    {}
  }

  /** A handle whose tag is new is put in its chain, at position k. */
  lemma FileOne(chains: seq<seq<Handle>>, nodes: set<Handle>, h: Handle, chain: seq<Handle>, k: nat)
    requires Filed(chains, nodes) && h !in nodes
    requires forall x :: x in nodes ==> x.tag != h.tag
    requires var was := chains[h.tag.hash % |chains|]; k <= |was| && chain == was[..k] + [h] + was[k..]
    ensures Filed(chains[h.tag.hash % |chains| := chain], nodes + {h})
  {
    hide NoTagTwice;
    var b := h.tag.hash % |chains|;
    var was := chains[b];
    assert forall x :: x in was ==> x in nodes && x.tag.hash % |chains| == b;
    PutIn(was, h, chain, k);
    ChangeChain(chains, nodes, b, chain, nodes + {h});
  }

  lemma EndOf(chain: seq<Handle>, i: nat)
    requires i <= |chain| && NodeAt(chain, i) == null
    ensures i == |chain|
  {}

  lemma AtNode(h: Handle, chain: seq<Handle>, j: nat)
    requires h == NodeAt(chain, j) && j <= |chain| && Linked(h, chain[j..])
    ensures j < |chain| && h == chain[j] && h.nextHash == NodeAt(chain, j + 1)
    ensures Linked(h.nextHash, chain[j + 1..])
  {
    assert chain[j..][1..] == chain[j + 1..];
    Tail(h, chain[j..], 0);
  }

  lemma Tail(head: Handle?, chain: seq<Handle>, i: nat)
    requires Linked(head, chain) && i <= |chain|
    ensures Linked(NodeAt(chain, i), chain[i..]) && head == NodeAt(chain, 0)
    ensures i < |chain| ==> chain[i] == NodeAt(chain, i) && Linked(chain[i].nextHash, chain[i + 1..])
    ensures Linked(null, [])
  {}

  lemma NotAhead(chains: seq<seq<Handle>>, nodes: set<Handle>, b: nat, i: nat)
    requires Filed(chains, nodes) && b < |chains| && i <= |chains[b]|
    ensures forall x :: x in chains[b] ==> x in nodes
    ensures i > 0 ==> chains[b][i - 1] in nodes && chains[b][i - 1] !in chains[b][i..]
    ensures 0 < i < |chains[b]| ==> chains[b][i - 1] !in chains[b][i + 1..]
  {
    if i > 0 { Apart(chains, nodes, b, i - 1); }
  }

  lemma LinkFront(h: Handle, chain: seq<Handle>)
    requires Linked(h.nextHash, chain)
    ensures Linked(h, [h] + chain)
  {}

  lemma Unlink(head: Handle?, chain: seq<Handle>)
    requires Linked(head, chain)
    ensures head == NodeAt(chain, 0)
    ensures forall j :: 0 <= j < |chain| ==> chain[j].nextHash == NodeAt(chain, j + 1)
  {}

  lemma Splice(head: Handle?, chain: seq<Handle>, i: nat, rest: seq<Handle>, h: Handle?)
    requires 0 < i <= |chain| && head == NodeAt(chain, 0)
    requires forall j :: 0 <= j < i - 1 ==> chain[j].nextHash == NodeAt(chain, j + 1)
    requires chain[i - 1].nextHash == h && Linked(h, rest)
    ensures Linked(head, chain[..i] + rest)
  {}

  /** A handle of one bucket's chain is in no other chain, and in its own only once. */
  lemma Apart(chains: seq<seq<Handle>>, nodes: set<Handle>, b: nat, i: nat)
    requires Filed(chains, nodes) && b < |chains| && i < |chains[b]|
    ensures chains[b][i] in nodes
    ensures forall c :: 0 <= c < |chains| && c != b ==> chains[b][i] !in chains[c]
    ensures forall j :: 0 <= j < |chains[b]| && j != i ==> chains[b][i] != chains[b][j]
  {
    assert NoTagTwice(chains[b]);
  }

  // ----- Filing a handle and taking one out, on the chains ------------------------------------------

  /** One bucket's chain is exchanged for another that holds handles of the same bucket. */
  lemma ChangeChain(chains: seq<seq<Handle>>, nodes: set<Handle>, b: nat, chain: seq<Handle>, nodes': set<Handle>)
    requires Filed(chains, nodes) && b < |chains| && NoTagTwice(chain)
    requires forall x :: x in chain ==> x in nodes' && x.tag.hash % |chains| == b
    requires forall x :: x in nodes' && x.tag.hash % |chains| == b ==> x in chain
    requires forall x :: x in nodes && x.tag.hash % |chains| != b ==> x in nodes'
    requires forall x :: x in nodes' && x.tag.hash % |chains| != b ==> x in nodes
    ensures Filed(chains[b := chain], nodes')
  {
    var chains' := chains[b := chain];
    forall c, j | 0 <= c < |chains'| && 0 <= j < |chains'[c]|
      ensures chains'[c][j] in nodes' && chains'[c][j].tag.hash % |chains'| == c
    {
      if c == b { assert chains'[c][j] in chain; }
    }
  }

  lemma FileNew(chains: seq<seq<Handle>>, nodes: set<Handle>, m: map<Tag, Handle>, h: Handle)
    requires Filed(chains, nodes) && Maps(m, nodes) && h.tag !in m
    ensures var b := h.tag.hash % |chains|;
            Filed(chains[b := chains[b] + [h]], nodes + {h})
  {
    var was := chains[h.tag.hash % |chains|];
    assert was + [h] == was[..|was|] + [h] + was[|was|..];
    FileOne(chains, nodes, h, was + [h], |was|);
  }

  lemma MapNew(nodes: set<Handle>, m: map<Tag, Handle>, h: Handle)
    requires Maps(m, nodes) && h.tag !in m
    ensures Maps(m[h.tag := h], nodes + {h}) && |m[h.tag := h]| == |m| + 1
  {
    assert m[h.tag := h].Keys == m.Keys + {h.tag};
  }

  lemma FileReplace(chains: seq<seq<Handle>>, nodes: set<Handle>, m: map<Tag, Handle>, b: nat, i: nat, h: Handle)
    requires Filed(chains, nodes) && Maps(m, nodes) && b < |chains| && i < |chains[b]|
    requires chains[b][i].tag == h.tag && h !in nodes
    ensures Filed(chains[b := chains[b][i := h]], nodes - {chains[b][i]} + {h})
    ensures Maps(m[h.tag := h], nodes - {chains[b][i]} + {h}) && |m[h.tag := h]| == |m|
  {
    Apart(chains, nodes, b, i);
    var chain, nodes' := chains[b][i := h], nodes - {chains[b][i]} + {h};
    assert NoTagTwice(chains[b]);
    forall x | x in nodes' && x.tag.hash % |chains| == b
      ensures x in chain
    {
      if x != h {
        var j :| 0 <= j < |chains[b]| && chains[b][j] == x;
        assert chain[j] == x;
      } else {
        assert chain[i] == x;
      }
    }
    ChangeChain(chains, nodes, b, chain, nodes');
    assert m[h.tag := h].Keys == m.Keys;
  }

  lemma Unfile(chains: seq<seq<Handle>>, nodes: set<Handle>, m: map<Tag, Handle>, b: nat, i: nat)
    requires Filed(chains, nodes) && Maps(m, nodes) && b < |chains| && i < |chains[b]|
    ensures var h := chains[b][i];
            && Filed(chains[b := chains[b][..i] + chains[b][i + 1..]], Without(nodes, h))
            && Maps(m - {h.tag}, Without(nodes, h)) && |m - {h.tag}| == |m| - 1
  {
    hide NoTagTwice, Maps;
    Apart(chains, nodes, b, i);
    var h := chains[b][i];
    var was, chain := chains[b], chains[b][..i] + chains[b][i + 1..];
    TakenOut(was, i);
    assert forall x :: x in was ==> x in nodes && x.tag.hash % |chains| == b;
    ChangeChain(chains, nodes, b, chain, nodes - {h});
    MapWithout(nodes, m, h);
    assert Without(nodes, h) == nodes - {h};
  }

  lemma MapWithout(nodes: set<Handle>, m: map<Tag, Handle>, h: Handle)
    requires Maps(m, nodes) && h in nodes
    ensures Maps(m - {h.tag}, nodes - {h}) && |m - {h.tag}| == |m| - 1
  {
    assert (m - {h.tag}).Keys == m.Keys - {h.tag};
  }

  lemma TakenOut(was: seq<Handle>, i: nat)
    requires NoTagTwice(was) && i < |was|
    ensures NoTagTwice(was[..i] + was[i + 1..]) && forall x :: x in was[..i] + was[i + 1..] <==> x in was && x != was[i]
  {
    var chain := was[..i] + was[i + 1..];
    forall j | 0 <= j < |chain|
      ensures chain[j] == was[if j < i then j else j + 1] && chain[j] != was[i]
    {}
    forall x | x in was && x != was[i]
      ensures x in chain
    {
      var j :| 0 <= j < |was| && was[j] == x;
      assert chain[if j < i then j else j - 1] == x;
    }
  }
}
