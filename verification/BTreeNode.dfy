/** A B-tree node's storage: slots, of which the first `count` hold keys and the others are
    uninitialised, and child pointers; keys and children moved about in place. */
module BTreeNode {
  import opened Common

  /** What a node holds. */
  datatype Cells<K, C> = Cells(keys: seq<K>, kids: seq<C>)

  /** Two siblings and the key between them. */
  datatype Siblings<K, C> = Siblings(left: Cells<K, C>, d: K, right: Cells<K, C>)

  /** rebalance_right_to_left: the first keys of the right node go to the left one, by way of the parent. */
  function RightToLeft<K, C>(s: Siblings<K, C>, toMove: nat): Siblings<K, C>
    requires 1 <= toMove <= |s.right.keys| && (s.right.kids == [] || toMove <= |s.right.kids|)
  {
    var r := s.right;
    var moved := if r.kids == [] then 0 else toMove;
    Siblings(Cells(s.left.keys + [s.d] + r.keys[..toMove - 1], s.left.kids + r.kids[..moved]),
             r.keys[toMove - 1],
             Cells(r.keys[toMove..], r.kids[moved..]))
  }

  /** rebalance_left_to_right: the last keys of the left node go to the right one. */
  function LeftToRight<K, C>(s: Siblings<K, C>, toMove: nat): Siblings<K, C>
    requires 1 <= toMove <= |s.left.keys| && (s.left.kids == [] || toMove <= |s.left.kids|)
  {
    var l := s.left;
    var n, k := |l.keys| - toMove, if l.kids == [] then 0 else |l.kids| - toMove;
    Siblings(Cells(l.keys[..n], l.kids[..k]),
             l.keys[n],
             Cells(l.keys[n + 1..] + [s.d] + s.right.keys, l.kids[k..] + s.right.kids))
  }

  /** split: how many keys go to the new node, by where the insertion is to be. */
  function SplitCount(N: nat, pos: nat): nat
    requires N >= 1
  {
    if pos == 0 then N - 1 else if pos == N then 0 else N / 2
  }

  function SplitAt<K, C>(N: nat, t: Cells<K, C>, pos: nat): Siblings<K, C>
    requires 1 <= N == |t.keys| && (t.kids == [] || |t.kids| == N + 1)
  {
    var n := N - SplitCount(N, pos) - 1;
    var k := if t.kids == [] then 0 else n + 1;
    Siblings(Cells(t.keys[..n], t.kids[..k]), t.keys[n], Cells(t.keys[n + 1..], t.kids[k..]))
  }

  /** Whose the keys and the children are after a split that leaves n keys and the one for the parent. */
  lemma SplitIs<K, C>(N: nat, t: Cells<K, C>, pos: nat)
    requires 1 <= N == |t.keys| && (t.kids == [] || |t.kids| == N + 1)
    ensures SplitCount(N, pos) < N
    ensures var n, r := N - SplitCount(N, pos) - 1, SplitAt(N, t, pos);
            && r.left.keys == t.keys[..n] && r.d == t.keys[n] && r.right.keys == t.keys[n + 1..]
            && r.left.kids == (if t.kids == [] then [] else t.kids[..n + 1])
            && r.right.kids == (if t.kids == [] then [] else t.kids[n + 1..])
  {}

  /** merge: one node of all that two siblings and the key between them hold. */
  function Join<K, C>(s: Siblings<K, C>): Cells<K, C> {
    Cells(s.left.keys + [s.d] + s.right.keys, s.left.kids + s.right.kids)
  }

  // ----- Rows of slots ------------------------------------------------------------------------------------------

  type Slots<T> = seq<Option<T>>

  /** These, from the start, and nothing behind them. */
  ghost predicate Row<T>(a: Slots<T>, s: seq<T>) {
    |s| <= |a| && forall i :: 0 <= i < |a| ==> a[i] == if i < |s| then Some(s[i]) else None
  }

  function Somes<T>(s: seq<T>): (r: Slots<T>)
    ensures |r| == |s| && forall i :: 0 <= i < |s| ==> r[i] == Some(s[i])
  {
    seq(|s|, i requires 0 <= i < |s| => Some(s[i]))
  }

  function Nones<T>(n: nat): (r: Slots<T>)
    ensures |r| == n && forall i :: 0 <= i < n ==> r[i] == None
  {
    seq(n, _ => None)
  }

  /** A stretch of the slots overwritten. */
  function Put<T>(a: Slots<T>, to: nat, x: Slots<T>): (r: Slots<T>)
    requires to + |x| <= |a|
    ensures |r| == |a|
  {
    a[..to] + x + a[to + |x|..]
  }

  lemma PutAt<T>(a: Slots<T>, to: nat, x: Slots<T>)
    requires to + |x| <= |a|
    ensures forall i :: 0 <= i < |a| ==> Put(a, to, x)[i] == if to <= i < to + |x| then x[i - to] else a[i]
  {}

  lemma PutNothing<T>(a: Slots<T>, to: nat)
    requires to <= |a|
    ensures Put(a, to, []) == a
  {}

  lemma PutMore<T>(a: Slots<T>, to: nat, x: Slots<T>, y: Option<T>)
    requires to + |x| < |a|
    ensures Put(a, to, x)[to + |x| := y] == Put(a, to, x + [y])
  {}

  lemma PutBefore<T>(a: Slots<T>, to: nat, x: Slots<T>, y: Option<T>)
    requires 0 < to && to + |x| <= |a|
    ensures Put(a, to, x)[to - 1 := y] == Put(a, to - 1, [y] + x)
  {}

  lemma RowPart<T>(a: Slots<T>, s: seq<T>, i: nat, j: nat)
    requires Row(a, s) && i <= j <= |s|
    ensures a[i..j] == Somes(s[i..j])
  {}

  /** Put behind the last, it is a longer row. */
  lemma RowGrows<T>(a: Slots<T>, s: seq<T>, x: seq<T>)
    requires Row(a, s) && |s| + |x| <= |a|
    ensures Row(Put(a, |s|, Somes(x)), s + x)
  {}

  /** With the last of them removed, a shorter one. */
  lemma RowShrinks<T>(a: Slots<T>, s: seq<T>, n: nat)
    requires Row(a, s) && n <= |s|
    ensures Row(Put(a, n, Nones(|s| - n)), s[..n])
  {}

  /** These, from the start; what is behind them is of no account. */
  ghost predicate Lead<T>(a: Slots<T>, s: seq<T>) {
    |s| <= |a| && forall i :: 0 <= i < |s| ==> a[i] == Some(s[i])
  }

  lemma LeadGrows<T>(a: Slots<T>, s: seq<T>, x: seq<T>)
    requires Lead(a, s) && |s| + |x| <= |a|
    ensures Lead(Put(a, |s|, Somes(x)), s + x)
  {}

  /** These, from a place on. */
  ghost predicate LiesAt<T>(a: Slots<T>, step: nat, s: seq<T>) {
    step + |s| <= |a| && forall i :: step <= i < step + |s| ==> a[i] == Some(s[i - step])
  }

  lemma LeadBelow<T>(a: Slots<T>, s: seq<T>, x: seq<T>)
    requires LiesAt(a, |x|, s)
    ensures Lead(Put(a, 0, Somes(x)), x + s)
  {
    hide Put;
    PutAt(a, 0, Somes(x));
  }

  lemma LeadPart<T>(a: Slots<T>, s: seq<T>, i: nat, j: nat)
    requires Lead(a, s) && i <= j <= |s|
    ensures a[i..j] == Somes(s[i..j])
  {}

  lemma LeadShrinks<T>(a: Slots<T>, s: seq<T>, n: nat, x: Slots<T>)
    requires Lead(a, s) && n <= |s| && n + |x| <= |a|
    ensures Lead(Put(a, n, x), s[..n])
  {}

  /** Moved down, and the rest removed. */
  lemma RowDown<T>(a: Slots<T>, s: seq<T>, n: nat)
    requires Row(a, s) && n <= |s|
    ensures var down := Put(a, 0, a[n..|s|]);
            && (forall i :: |s| - n <= i < |s| ==> down[i].Some?)
            && Row(Put(down, |s| - n, Nones(n)), s[n..])
  {
    hide Put;
    var down := Put(a, 0, a[n..|s|]);
    PutAt(a, 0, a[n..|s|]);
    PutAt(down, |s| - n, Nones<T>(n));
  }

  // ----- Moving within and between arrays ---------------------------------------------------------------------

  type Store<T> = array<Option<T>>

  /** Elements in ascending order, to places not above their own: params_type::move. */
  method MoveForward<T>(src: Store<T>, from: nat, n: nat, dst: Store<T>, to: nat)
    requires from + n <= src.Length && to + n <= dst.Length && (src == dst ==> to <= from)
    modifies dst
    ensures dst[..] == Put(old(dst[..]), to, old(src[..])[from..from + n])
  {
    ghost var a, x := dst[..], src[..];
    for k := 0 to n
      invariant dst[..] == Put(a, to, x[from..from + k])
      invariant forall i :: from + k <= i < from + n ==> src[i] == x[i]
    {
      PutMore(a, to, x[from..from + k], x[from + k]);
      assert x[from..from + k] + [x[from + k]] == x[from..from + k + 1];
      dst[to + k] := src[from + k];
      assert dst[..] == Put(a, to, x[from..from + k + 1]);
    }
  }

  /** Elements in descending order, to higher places of the same array. */
  method MoveBackward<T>(a: Store<T>, from: nat, n: nat, to: nat)
    requires from + n <= a.Length && to + n <= a.Length && from <= to
    modifies a
    ensures a[..] == Put(old(a[..]), to, old(a[..])[from..from + n])
  {
    hide Put;
    ghost var x := a[..];
    PutNothing(x, to + n);
    assert x[from + n..from + n] == [];
    var k: nat := n;
    while k > 0
      invariant k <= n && a[..] == Put(x, to + k, x[from + k..from + n])
      invariant forall i :: from <= i < from + k ==> a[i] == x[i]
    {
      k := k - 1;
      PutBefore(x, to + k + 1, x[from + k + 1..from + n], x[from + k]);
      assert [x[from + k]] + x[from + k + 1..from + n] == x[from + k..from + n];
      ghost var before := a[..];
      a[to + k] := a[from + k];
      assert a[..] == before[to + k := x[from + k]];
    }
  }

  /** uninitialized_move_n: keys to slots that hold none. */
  method UninitializedMoveN<T>(src: Store<T>, from: nat, n: nat, dst: Store<T>, to: nat)
    requires from + n <= src.Length && to + n <= dst.Length
    requires forall i :: from <= i < from + n ==> src[i].Some?
    requires forall i :: to <= i < to + n ==> dst[i].None?
    modifies dst
    ensures dst[..] == Put(old(dst[..]), to, old(src[..])[from..from + n])
  {
    hide Put;
    ghost var a, x := dst[..], src[..];
    PutNothing(a, to);
    assert x[from..from] == [];
    for k := 0 to n
      invariant dst[..] == Put(a, to, x[from..from + k])
      invariant forall i :: from + k <= i < from + n ==> src[i] == x[i]
      invariant forall i :: to <= i < to + n ==> a[i].None?
    {
      PutMore(a, to, x[from..from + k], x[from + k]);
      assert x[from..from + k] + [x[from + k]] == x[from..from + k + 1];
      dst[to + k] := src[from + k];
      assert dst[..] == Put(a, to, x[from..from + k])[to + k := x[from + k]];
    }
  }

  /** value_destroy_n */
  method Destroy<T>(a: Store<T>, from: nat, n: nat)
    requires from + n <= a.Length && forall i :: from <= i < from + n ==> a[i].Some?
    modifies a
    ensures a[..] == Put(old(a[..]), from, Nones(n))
  {
    ghost var x := a[..];
    for k := 0 to n
      invariant a[..] == Put(x, from, Nones(k))
    {
      PutMore(x, from, Nones(k), None);
      assert Nones<T>(k) + [None] == Nones(k + 1);
      a[from + k] := None;
      assert a[..] == Put(x, from, Nones(k + 1));
    }
  }

  /** Children of one node to another: init_child there, clear_child here. */
  method TakeChildren<T>(src: Store<T>, from: nat, n: nat, dst: Store<T>, to: nat)
    requires src != dst && from + n <= src.Length && to + n <= dst.Length
    modifies src, dst
    ensures dst[..] == Put(old(dst[..]), to, old(src[..])[from..from + n])
    ensures src[..] == Put(old(src[..]), from, Nones(n))
  {
    hide Put;
    ghost var a, x := dst[..], src[..];
    PutNothing(a, to);
    PutNothing(x, from);
    assert x[from..from] == [];
    for k := 0 to n
      invariant dst[..] == Put(a, to, x[from..from + k]) && src[..] == Put(x, from, Nones(k))
      invariant forall i :: from + k <= i < from + n ==> src[i] == x[i]
    {
      PutMore(a, to, x[from..from + k], x[from + k]);
      PutMore(x, from, Nones(k), None);
      assert x[from..from + k] + [x[from + k]] == x[from..from + k + 1] && Nones<T>(k) + [None] == Nones(k + 1);
      dst[to + k] := src[from + k];
      src[from + k] := None;
      assert dst[..] == Put(a, to, x[from..from + k])[to + k := x[from + k]];
      assert src[..] == Put(x, from, Nones(k))[from + k := None];
    }
  }

  /** A node's own children, `step` places down. */
  method ShiftDown<T>(a: Store<T>, step: nat, ghost s: seq<T>, n: nat)
    requires Lead(a[..], s) && step + n == |s| && step > 0
    modifies a
    ensures Lead(a[..], s[step..])
  {
    for i := 0 to n
      invariant forall j :: 0 <= j < i ==> a[j] == Some(s[step + j])
      invariant forall j :: step + i <= j < |s| ==> a[j] == Some(s[j])
    {
      a[i] := a[i + step];
      a[i + step] := None;
    }
  }

  /** A node's own children, `step` places up. */
  method ShiftUp<T>(a: Store<T>, step: nat, ghost s: seq<T>, n: nat)
    requires Lead(a[..], s) && n == |s| && n + step <= a.Length && step > 0
    modifies a
    ensures LiesAt(a[..], step, s)
  {
    var i: nat := n;
    while i > 0
      invariant i <= n && (forall j :: 0 <= j < i ==> a[j] == Some(s[j]))
      invariant forall j :: i + step <= j < n + step ==> a[j] == Some(s[j - step])
    {
      i := i - 1;
      a[i + step] := a[i];
      a[i] := None;
    }
  }

  class Node<K, C> {
    const leaf: bool
    const maxCount: nat
    var count: nat
    const slots: Store<K>
    const children: Store<C>

    /** The node holds these keys and these children. */
    ghost predicate Represents(c: Cells<K, C>)
      reads this, slots, children
    {
      && slots.Length == maxCount && count == |c.keys| && Row(slots[..], c.keys)
      && children.Length == (if leaf then 0 else maxCount + 1)
      && |c.kids| == (if leaf then 0 else |c.keys| + 1) && Lead(children[..], c.kids)
    }

    ghost function Parts(): set<object> {
      {this, slots, children}
    }

    ghost predicate Apart(other: Node<K, C>) {
      Parts() !! other.Parts() && slots as object != children as object
    }

    constructor (leaf: bool, maxCount: nat)
      ensures this.leaf == leaf && this.maxCount == maxCount && count == 0
      ensures fresh(slots) && fresh(children) && slots.Length == maxCount
      ensures children.Length == (if leaf then 0 else maxCount + 1) && Row(slots[..], [])
    {
      this.leaf, this.maxCount, count := leaf, maxCount, 0;
      slots := new Option<K>[maxCount](_ => None);
      children := new Option<C>[if leaf then 0 else maxCount + 1](_ => None);
    }

    // ----- rebalance_right_to_left -----------------------------------------------------------------------

    method RightToLeftKeys(toMove: nat, right: Node<K, C>, parent: Node<K, C>, position: nat,
                           ghost l: seq<K>, ghost d: K, ghost r: seq<K>)
      requires slots != right.slots && slots != parent.slots && right.slots != parent.slots
      requires Row(slots[..], l) && Row(right.slots[..], r) && count == |l| && right.count == |r|
      requires position < parent.slots.Length && parent.slots[position] == Some(d)
      requires 1 <= toMove <= |r| && |l| + toMove <= slots.Length
      modifies slots, right.slots, parent.slots
      ensures Row(slots[..], l + [d] + r[..toMove - 1]) && Row(right.slots[..], r[toMove..])
      ensures parent.slots[..] == old(parent.slots[..])[position := Some(r[toMove - 1])]
    {
      hide Row, Put;
      RowSlots(slots[..], l);
      RowSlots(right.slots[..], r);
      RowGrows(slots[..], l, [d]);
      PutOne(slots[..], count, d);
      slots[count] := parent.slots[position];
      RowSlots(slots[..], l + [d]);
      RowPart(right.slots[..], r, 0, toMove - 1);
      RowGrows(slots[..], l + [d], r[..toMove - 1]);
      UninitializedMoveN(right.slots, 0, toMove - 1, slots, count + 1);
      parent.slots[position] := right.slots[toMove - 1];
      RowDown(right.slots[..], r, toMove);
      MoveForward(right.slots, toMove, right.count - toMove, right.slots, 0);
      Destroy(right.slots, right.count - toMove, toMove);
    }

    method RightToLeftKids(toMove: nat, right: Node<K, C>, ghost l: seq<C>, ghost r: seq<C>)
      requires children != right.children && Lead(children[..], l) && Lead(right.children[..], r)
      requires |l| == count + 1 && |r| == right.count + 1 && 1 <= toMove <= right.count &&
            |l| + toMove <= children.Length
      modifies children, right.children
      ensures Lead(children[..], l + r[..toMove]) && Lead(right.children[..], r[toMove..])
    {
      LeadPart(right.children[..], r, 0, toMove);
      LeadGrows(children[..], l, r[..toMove]);
      MoveForward(right.children, 0, toMove, children, count + 1);
      ShiftDown(right.children, toMove, r, right.count + 1 - toMove);
    }

    /** The first keys of the right node, and its first children, go to this one. */
    method RebalanceRightToLeft(toMove: nat, right: Node<K, C>, parent: Node<K, C>, position: nat,
                                ghost s: Siblings<K, C>, ghost p: Cells<K, C>)
      requires Apart(right) && right.Apart(parent) && parent.Apart(this) && leaf == right.leaf
      requires Represents(s.left) && right.Represents(s.right)
      requires parent.Represents(p) && position < |p.keys| && p.keys[position] == s.d
      requires 1 <= toMove <= right.count && count <= right.count && count + toMove <= maxCount
      modifies this, slots, children, right, right.slots, right.children, parent.slots
      ensures Represents(RightToLeft(s, toMove).left) && right.Represents(RightToLeft(s, toMove).right)
      ensures parent.Represents(p.(keys := p.keys[position := RightToLeft(s, toMove).d]))
    {
      hide Row, Lead;
      RowSlots(parent.slots[..], p.keys);
      RowSet(parent.slots[..], p.keys, position, RightToLeft(s, toMove).d);
      RightToLeftKeys(toMove, right, parent, position, s.left.keys, s.d, s.right.keys);
      if !leaf {
        RightToLeftKids(toMove, right, s.left.kids, s.right.kids);
      }
      count, right.count := count + toMove, right.count - toMove;
    }

    // ----- rebalance_left_to_right -----------------------------------------------------------------------

    /** Where the right node has as many keys as are to come, they move up over its own slots. */
    method LeftToRightOver(toMove: nat, right: Node<K, C>, d: K, ghost l: seq<K>, ghost r: seq<K>)
      requires slots != right.slots && Row(slots[..], l) && Row(right.slots[..], r) && count == |l| &&
            right.count == |r|
      requires 1 <= toMove <= |l| && toMove <= |r| && |r| + toMove <= right.slots.Length
      modifies right.slots
      ensures Row(right.slots[..], l[|l| - (toMove - 1)..] + [d] + r)
    {
      hide Row, Put;
      ghost var a, tail := right.slots[..], l[|l| - (toMove - 1)..];
      RowSlots(a, r);
      RowSlots(slots[..], l);
      UninitializedMoveN(right.slots, right.count - toMove, toMove, right.slots, right.count);
      ghost var a1 := right.slots[..];
      MoveBackward(right.slots, 0, right.count - toMove, toMove);
      ghost var a2 := right.slots[..];
      right.slots[toMove - 1] := Some(d);
      ghost var a3 := right.slots[..];
      assert a3 == a2[toMove - 1 := Some(d)];
      RowPart(slots[..], l, |l| - (toMove - 1), |l|);
      assert l[|l| - (toMove - 1)..|l|] == tail;
      MoveForward(slots, count - (toMove - 1), toMove - 1, right.slots, 0);
      Shifted(a, r, d, tail, a1, a2, a3);
    }

    /** Where it has fewer, some of the keys that come go to slots that hold none. */
    method LeftToRightBeyond(toMove: nat, right: Node<K, C>, d: K, ghost l: seq<K>, ghost r: seq<K>)
      requires slots != right.slots && Row(slots[..], l) && Row(right.slots[..], r) && count == |l| &&
            right.count == |r|
      requires 1 <= toMove <= |l| && |r| < toMove && |r| + toMove <= right.slots.Length
      modifies right.slots
      ensures Row(right.slots[..], l[|l| - (toMove - 1)..] + [d] + r)
    {
      hide Row, Put;
      ghost var a, tail := right.slots[..], l[|l| - (toMove - 1)..];
      RowSlots(a, r);
      RowSlots(slots[..], l);
      RowPart(a, r, 0, |r|);
      UninitializedMoveN(right.slots, 0, right.count, right.slots, toMove);
      ghost var a1 := right.slots[..];
      PutAt(a, toMove, Somes(r));
      assert r[0..|r|] == r;
      right.slots[toMove - 1] := Some(d);
      var uninitializedRemaining := toMove - right.count - 1;
      RowPart(slots[..], l, |l| - uninitializedRemaining, |l|);
      ghost var a2 := right.slots[..];
      assert a2 == a1[toMove - 1 := Some(d)];
      UninitializedMoveN(slots, count - uninitializedRemaining, uninitializedRemaining, right.slots, right.count);
      RowPart(slots[..], l, |l| - (toMove - 1), |l| - uninitializedRemaining);
      ghost var a3 := right.slots[..];
      MoveForward(slots, count - (toMove - 1), (toMove - 1) - uninitializedRemaining, right.slots, 0);
      assert l[|l| - uninitializedRemaining..|l|] == tail[|r|..] &&
            l[|l| - (toMove - 1)..|l| - uninitializedRemaining] == tail[..|r|];
      Pieces(a, r, d, tail, a1, a2, a3);
    }

    /** The last keys of this node, and its last children, go to the right one. */
    method RebalanceLeftToRight(toMove: nat, right: Node<K, C>, parent: Node<K, C>, position: nat,
                                ghost s: Siblings<K, C>, ghost p: Cells<K, C>)
      requires Apart(right) && right.Apart(parent) && parent.Apart(this) && leaf == right.leaf
      requires Represents(s.left) && right.Represents(s.right)
      requires parent.Represents(p) && position < |p.keys| && p.keys[position] == s.d
      requires 1 <= toMove <= count && right.count <= count && right.count + toMove <= right.maxCount
      modifies this, slots, children, right, right.slots, right.children, parent.slots
      ensures Represents(LeftToRight(s, toMove).left) && right.Represents(LeftToRight(s, toMove).right)
      ensures parent.Represents(p.(keys := p.keys[position := LeftToRight(s, toMove).d]))
    {
      hide Row, Lead, Put;
      ghost var l, r := s.left.keys, s.right.keys;
      RowSlots(parent.slots[..], p.keys);
      RowSlots(slots[..], l);
      var d := parent.slots[position].value;
      if right.count >= toMove {
        LeftToRightOver(toMove, right, d, l, r);
      } else {
        LeftToRightBeyond(toMove, right, d, l, r);
      }
      GiveUp(toMove, parent, position, l, p.keys);
      if leaf {
        assert s.left.kids == [] && s.left.kids[0..] + s.right.kids == s.right.kids;
      } else {
        LeftToRightKids(toMove, right, s.left.kids, s.right.kids);
      }
      count, right.count := count - toMove, right.count + toMove;
    }

    /** The last of the keys that leave goes to the parent; the slots of all of them are empty then. */
    method GiveUp(toMove: nat, parent: Node<K, C>, position: nat, ghost l: seq<K>, ghost keys: seq<K>)
      requires slots != parent.slots && Row(slots[..], l) && count == |l| && 1 <= toMove <= |l|
      requires Row(parent.slots[..], keys) && position < |keys| <= parent.slots.Length && |l| <= slots.Length
      modifies slots, parent.slots
      ensures Row(slots[..], l[..|l| - toMove]) && Row(parent.slots[..], keys[position := l[|l| - toMove]])
    {
      hide Row, Put;
      RowSlots(slots[..], l);
      RowSet(parent.slots[..], keys, position, l[|l| - toMove]);
      parent.slots[position] := slots[count - toMove];
      RowShrinks(slots[..], l, |l| - toMove);
      Destroy(slots, count - toMove, toMove);
    }

    method LeftToRightKids(toMove: nat, right: Node<K, C>, ghost l: seq<C>, ghost r: seq<C>)
      requires children != right.children && Lead(children[..], l) && Lead(right.children[..], r)
      requires |l| == count + 1 && |r| == right.count + 1 && 1 <= toMove <= count &&
            |r| + toMove <= right.children.Length
      modifies children, right.children
      ensures Lead(children[..], l[..|l| - toMove]) && Lead(right.children[..], l[|l| - toMove..] + r)
    {
      hide Put;
      ShiftUp(right.children, toMove, r, right.count + 1);
      LeadPart(children[..], l, |l| - toMove, |l|);
      LeadShrinks(children[..], l, |l| - toMove, Nones(toMove));
      ghost var x := l[|l| - toMove..|l|];
      assert x == l[|l| - toMove..];
      LeadBelow(right.children[..], r, x);
      TakeChildren(children, count - toMove + 1, toMove, right.children, 0);
    }

    // ----- split and merge -------------------------------------------------------------------------------

    method EmplaceKey(i: nat, value: K, ghost keys: seq<K>)
      requires Row(slots[..], keys) && i <= count == |keys| < slots.Length
      modifies slots
      ensures Row(slots[..], keys[..i] + [value] + keys[i..])
    {
      hide Row, Put;
      ghost var a := slots[..];
      RowSlots(a, keys);
      if i < count {
        slots[count] := slots[count - 1];
        ghost var a1 := slots[..];
        MoveBackward(slots, i, count - 1 - i, i + 1);
        Opened(a, keys, i, value, a1, slots[..]);
      } else {
        Opened(a, keys, i, value, a, a);
      }
      ghost var a2 := slots[..];
      slots[i] := Some(value);
      assert slots[..] == a2[i := Some(value)];
    }

    /** emplace_value, in a parent: a key, and between the children room for one to its right. */
    method EmplaceValue(i: nat, value: K, ghost c: Cells<K, C>)
      requires Represents(c) && i <= count < maxCount && slots as object != children as object
      modifies `count, slots, children
      ensures count == old(count) + 1 && Row(slots[..], c.keys[..i] + [value] + c.keys[i..])
      ensures !leaf ==> forall j :: 0 <= j <= count && j != i + 1 ==>
            children[j] == Some(c.kids[if j <= i then j else j - 1])
    {
      hide Row, Put;
      EmplaceKey(i, value, c.keys);
      count := count + 1;
      if !leaf && count > i + 1 {
        OpenChildren(i, c.kids);
      }
    }

    method OpenChildren(i: nat, ghost kids: seq<C>)
      requires Lead(children[..], kids) && |kids| == count && i + 1 < count < children.Length
      modifies children
      ensures forall j :: 0 <= j <= count && j != i + 1 ==> children[j] == Some(kids[if j <= i then j else j - 1])
    {
      var j := count;
      while j > i + 1
        invariant i + 1 <= j <= count
        invariant forall k :: 0 <= k < j ==> children[k] == Some(kids[k])
        invariant forall k :: j < k <= count ==> children[k] == Some(kids[k - 1])
      {
        children[j] := children[j - 1];
        j := j - 1;
      }
      children[i + 1] := None;
    }

    /** split: the keys from the split key on leave for a new node, and the split key for the parent. */
    method Split(insertPosition: nat, dest: Node<K, C>, destChild: C, parent: Node<K, C>, position: nat,
                 ghost c: Cells<K, C>, ghost p: Cells<K, C>)
      requires Apart(dest) && dest.Apart(parent) && parent.Apart(this) && leaf == dest.leaf && !parent.leaf
      requires Represents(c) && 1 <= count == maxCount == dest.maxCount && insertPosition <= maxCount
      requires dest.count == 0 && Row(dest.slots[..], []) && dest.slots.Length == maxCount
      requires dest.children.Length == if leaf then 0 else maxCount + 1
      requires parent.Represents(p) && position <= parent.count < parent.maxCount
      modifies this, slots, children, dest, dest.slots, dest.children, parent, parent.slots, parent.children
      ensures var t := SplitAt(maxCount, c, insertPosition);
              && Represents(t.left) && dest.Represents(t.right)
              && parent.Represents(Cells(p.keys[..position] + [t.d] + p.keys[position..],
                                         p.kids[..position + 1] + [destChild] + p.kids[position + 1..]))
    {
      hide Row, Lead, Put, Represents, SplitAt;
      Unfold(c);
      SplitIs(maxCount, c, insertPosition);
      dest.count := if insertPosition == 0 then count - 1 else if insertPosition == maxCount then 0 else count / 2;
      count := count - dest.count;
      ghost var n := count;
      var d := SplitKeys(dest, c.keys);
      parent.AddChild(position, d, destChild, p);
      if !leaf {
        SplitChildren(dest, c.kids, n);
      }
      Fold(SplitAt(maxCount, c, insertPosition).left);
      dest.Fold(SplitAt(maxCount, c, insertPosition).right);
    }

    lemma Unfold(c: Cells<K, C>)
      requires Represents(c)
      ensures slots.Length == maxCount && count == |c.keys| && Row(slots[..], c.keys) && Lead(children[..], c.kids)
      ensures children.Length == (if leaf then 0 else maxCount + 1)
      ensures |c.kids| == (if leaf then 0 else |c.keys| + 1)
    {}

    lemma Fold(c: Cells<K, C>)
      requires slots.Length == maxCount && count == |c.keys| && Row(slots[..], c.keys)
      requires leaf || Lead(children[..], c.kids)
      requires children.Length == (if leaf then 0 else maxCount + 1)
      requires |c.kids| == (if leaf then 0 else |c.keys| + 1)
      ensures Represents(c)
    {}

    /** The last keys leave for the new node, and the one before them for the parent. */
    method SplitKeys(dest: Node<K, C>, ghost keys: seq<K>) returns (d: K)
      requires slots != dest.slots && this != dest && Row(slots[..], keys) && Row(dest.slots[..], [])
      requires 0 < count && count + dest.count == |keys| && dest.count <= dest.slots.Length
      modifies `count, slots, dest.slots
      ensures count == old(count) - 1 && d == keys[count]
      ensures Row(slots[..], keys[..count]) && Row(dest.slots[..], keys[count + 1..])
    {
      hide Row, Put;
      ghost var n := count;
      RowSlots(slots[..], keys);
      RowSlots(dest.slots[..], []);
      RowPart(slots[..], keys, n, |keys|);
      RowGrows(dest.slots[..], [], keys[n..|keys|]);
      UninitializedMoveN(slots, count, dest.count, dest.slots, 0);
      assert [] + keys[n..|keys|] == keys[n..];
      RowShrinks(slots[..], keys, n);
      Destroy(slots, count, dest.count);
      count := count - 1;
      RowSlots(slots[..], keys[..n]);
      d := slots[count].value;
      RowShrinks(slots[..], keys[..n], n - 1);
      PutNone(slots[..], n - 1);
      slots[count] := None;
      assert keys[..n][..n - 1] == keys[..n - 1];
    }

    method AddChild(position: nat, d: K, child: C, ghost p: Cells<K, C>)
      requires Represents(p) && !leaf && position <= count < maxCount && slots as object != children as object
      modifies `count, slots, children
      ensures Represents(Cells(p.keys[..position] + [d] + p.keys[position..],
                               p.kids[..position + 1] + [child] + p.kids[position + 1..]))
    {
      hide Row;
      EmplaceValue(position, d, p);
      children[position + 1] := Some(child);
    }

    method SplitChildren(dest: Node<K, C>, ghost kids: seq<C>, ghost n: nat)
      requires Lead(children[..], kids) && 0 < n == count + 1 && |kids| == n + dest.count + 1
      requires children != dest.children && dest.count < dest.children.Length
      modifies children, dest.children
      ensures Lead(children[..], kids[..n]) && Lead(dest.children[..], kids[n..])
    {
      LeadPart(children[..], kids, n, |kids|);
      LeadShrinks(children[..], kids, n, Nones(dest.count + 1));
      assert Lead(dest.children[..], []);
      LeadGrows(dest.children[..], [], kids[n..|kids|]);
      TakeChildren(children, count + 1, dest.count + 1, dest.children, 0);
      assert [] + kids[n..|kids|] == kids[n..];
    }

    /** merge: the right sibling's keys and children join this node's; the parent loses the key between. */
    method Merge(src: Node<K, C>, parent: Node<K, C>, position: nat, ghost s: Siblings<K, C>, ghost p: Cells<K, C>)
      requires Apart(src) && src.Apart(parent) && parent.Apart(this) && leaf == src.leaf && !parent.leaf
      requires Represents(s.left) && src.Represents(s.right) && 1 + count + src.count <= maxCount
      requires parent.Represents(p) && position < |p.keys| && p.keys[position] == s.d
      modifies this, slots, children, src, src.slots, src.children, parent, parent.slots, parent.children
      ensures Represents(Join(s)) && src.count == 0 && Row(src.slots[..], [])
      ensures var keys := p.keys[..position] + p.keys[position + 1..];
              var kids := p.kids[..position + 1] + p.kids[position + 2..];
              parent.Represents(Cells(keys, kids))
    {
      hide Row, Lead, Put, Represents;
      Unfold(s.left);
      src.Unfold(s.right);
      parent.Unfold(p);
      MergeKeys(src, parent, position, s.left.keys, s.d, s.right.keys, p.keys);
      if !leaf {
        MergeChildren(src, s.left.kids, s.right.kids);
      }
      count, src.count := 1 + count + src.count, 0;
      Fold(Join(s));
      parent.RemoveValue(position, p);
    }

    method MergeKeys(src: Node<K, C>, parent: Node<K, C>, position: nat,
                     ghost l: seq<K>, ghost d: K, ghost r: seq<K>, ghost keys: seq<K>)
      requires slots != src.slots && slots != parent.slots && Row(slots[..], l) && Row(src.slots[..], r) &&
            Row(parent.slots[..], keys)
      requires count == |l| && src.count == |r| && |l| + 1 + |r| <= slots.Length && position < |keys| &&
            keys[position] == d
      modifies slots, src.slots
      ensures Row(slots[..], l + [d] + r) && Row(src.slots[..], [])
    {
      hide Row, Put;
      RowSlots(parent.slots[..], keys);
      RowSlots(slots[..], l);
      RowSlots(src.slots[..], r);
      RowGrows(slots[..], l, [d]);
      PutOne(slots[..], count, d);
      slots[count] := parent.slots[position];
      RowSlots(slots[..], l + [d]);
      RowPart(src.slots[..], r, 0, |r|);
      assert r[0..|r|] == r;
      RowGrows(slots[..], l + [d], r);
      UninitializedMoveN(src.slots, 0, src.count, slots, count + 1);
      RowShrinks(src.slots[..], r, 0);
      Destroy(src.slots, 0, src.count);
    }

    method MergeChildren(src: Node<K, C>, ghost l: seq<C>, ghost r: seq<C>)
      requires children != src.children && Lead(children[..], l) && Lead(src.children[..], r)
      requires |l| == count + 1 && |r| == src.count + 1 && |l| + |r| <= children.Length && |r| <= src.children.Length
      modifies children, src.children
      ensures Lead(children[..], l + r)
    {
      hide Lead, Put;
      LeadPart(src.children[..], r, 0, |r|);
      assert r[0..|r|] == r;
      LeadGrows(children[..], l, r);
      TakeChildren(src.children, 0, src.count + 1, children, count + 1);
    }

    /** remove_value: a key, and above the leaves the child to its right. */
    method RemoveValue(i: nat, ghost c: Cells<K, C>)
      requires Represents(c) && i < count && slots as object != children as object
      modifies this, slots, children
      ensures Represents(Cells(c.keys[..i] + c.keys[i + 1..], if leaf then [] else c.kids[..i + 1] + c.kids[i + 2..]))
    {
      hide Row, Put;
      if !leaf {
        CloseChildren(i, c.kids);
      }
      ghost var a := slots[..];
      RowSlots(a, c.keys);
      MoveForward(slots, i + 1, count - (i + 1), slots, i);
      Closed(a, c.keys, i, slots[..]);
      Destroy(slots, count - 1, 1);
      count := count - 1;
    }

    method CloseChildren(i: nat, ghost kids: seq<C>)
      requires Lead(children[..], kids) && |kids| == count + 1 && i < count
      modifies children
      ensures Lead(children[..], kids[..i + 1] + kids[i + 2..])
    {
      if count > i + 1 {
        for j := i + 1 to count
          invariant forall k :: 0 <= k < |kids| ==> children[k] == Some(kids[if i + 1 <= k < j then k + 1 else k])
        {
          children[j] := children[j + 1];
        }
        children[count] := None;
      }
    }
  }

  lemma RowSlots<T>(a: Slots<T>, s: seq<T>)
    requires Row(a, s)
    ensures |s| <= |a| && (forall i :: 0 <= i < |s| ==> a[i] == Some(s[i])) && forall i :: |s| <= i < |a| ==>
          a[i] == None
  {}

  lemma RowSet<T>(a: Slots<T>, s: seq<T>, i: nat, x: T)
    requires Row(a, s) && i < |s|
    ensures Row(a[i := Some(x)], s[i := x])
  {}

  lemma PutOne<T>(a: Slots<T>, to: nat, x: T)
    requires to < |a|
    ensures Put(a, to, Somes([x])) == a[to := Some(x)]
  {}

  /** The four pieces of a row put together out of order. */
  lemma Pieces<T>(a: Slots<T>, r: seq<T>, d: T, tail: seq<T>, a1: Slots<T>, a2: Slots<T>, a3: Slots<T>)
    requires Row(a, r) && |r| <= |tail| && |r| + |tail| + 1 <= |a|
    requires a1 == Put(a, |tail| + 1, Somes(r)) && a2 == a1[|tail| := Some(d)]
    requires a3 == Put(a2, |r|, Somes(tail[|r|..]))
    ensures Row(Put(a3, 0, Somes(tail[..|r|])), tail + [d] + r)
  {
    hide Put;
    PutAt(a, |tail| + 1, Somes(r));
    PutAt(a2, |r|, Somes(tail[|r|..]));
    PutAt(a3, 0, Somes(tail[..|r|]));
  }

  lemma Shifted<T>(a: Slots<T>, r: seq<T>, d: T, tail: seq<T>, a1: Slots<T>, a2: Slots<T>, a3: Slots<T>)
    requires Row(a, r) && |tail| < |r| && |r| + |tail| + 1 <= |a|
    requires a1 == Put(a, |r|, a[|r| - (|tail| + 1)..|r|])
    requires a2 == Put(a1, |tail| + 1, a1[0..|r| - (|tail| + 1)]) && a3 == a2[|tail| := Some(d)]
    ensures Row(Put(a3, 0, Somes(tail)), tail + [d] + r)
  {
    hide Put;
    PutAt(a, |r|, a[|r| - (|tail| + 1)..|r|]);
    PutAt(a1, |tail| + 1, a1[0..|r| - (|tail| + 1)]);
    PutAt(a3, 0, Somes(tail));
  }

  /** Room made in a row. */
  lemma Opened<T>(a: Slots<T>, s: seq<T>, i: nat, x: T, a1: Slots<T>, a2: Slots<T>)
    requires Row(a, s) && i <= |s| < |a|
    requires i < |s| ==> a1 == a[|s| := a[|s| - 1]] && a2 == Put(a1, i + 1, a1[i..|s| - 1])
    requires i == |s| ==> a2 == a
    ensures |a2| == |a| && Row(a2[i := Some(x)], s[..i] + [x] + s[i..])
  {
    hide Put;
    if i < |s| { PutAt(a1, i + 1, a1[i..|s| - 1]); }
  }

  lemma Closed<T>(a: Slots<T>, s: seq<T>, i: nat, a1: Slots<T>)
    requires Row(a, s) && i < |s| && a1 == Put(a, i, a[i + 1..|s|])
    ensures a1[|s| - 1].Some? && Row(Put(a1, |s| - 1, Nones(1)), s[..i] + s[i + 1..])
  {
    hide Put;
    PutAt(a, i, a[i + 1..|s|]);
    PutAt(a1, |s| - 1, Nones<T>(1));
  }

  lemma PutNone<T>(a: Slots<T>, to: nat)
    requires to < |a|
    ensures Put(a, to, Nones(1)) == a[to := None]
  {}
}
