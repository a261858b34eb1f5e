/** The B-tree's rebalancing: making room for an insertion, and closing up after a removal.  A tree is
    taken apart at the node worked on (the iterator's node) and what is above and beside it. */
module BTree {
  import Node = BTreeNode

  datatype Tree<K> = Tree(keys: seq<K>, kids: seq<Tree<K>>)

  // ----- The keys in order -----------------------------------------------------------------------------

  /** The keys of a tree of height h, in order. */
  function Flat<K>(t: Tree<K>, h: nat): seq<K>
    decreases h, 0
  {
    if h == 0 || |t.kids| != |t.keys| + 1 then t.keys
    else Weave(t.kids[..|t.keys|], t.keys, h - 1) + Flat(t.kids[|t.keys|], h - 1)
  }

  /** Each subtree followed by a key. */
  function Weave<K>(kids: seq<Tree<K>>, keys: seq<K>, h: nat): seq<K>
    requires |kids| == |keys|
    decreases h, 1 + |kids|
  {
    if keys == [] then [] else Flat(kids[0], h) + [keys[0]] + Weave(kids[1..], keys[1..], h)
  }

  /** Each key followed by a subtree. */
  function Trail<K>(keys: seq<K>, kids: seq<Tree<K>>, h: nat): seq<K>
    requires |kids| == |keys|
  {
    if keys == [] then [] else [keys[0]] + Flat(kids[0], h) + Trail(keys[1..], kids[1..], h)
  }

  lemma {:induction false} WeaveSplit<K>(a: seq<Tree<K>>, ka: seq<K>, b: seq<Tree<K>>, kb: seq<K>, h: nat)
    requires |a| == |ka| && |b| == |kb|
    ensures Weave(a + b, ka + kb, h) == Weave(a, ka, h) + Weave(b, kb, h)
  {
    if a == [] {
      assert a + b == b && ka + kb == kb;
    } else {
      WeaveSplit(a[1..], ka[1..], b, kb, h);
      assert (a + b)[1..] == a[1..] + b && (ka + kb)[1..] == ka[1..] + kb;
    }
  }

  /** A subtree, and what trails it, is the same keys as what is woven, and the last subtree. */
  lemma {:induction false} TrailShift<K>(t: Tree<K>, keys: seq<K>, kids: seq<Tree<K>>, h: nat)
    requires |kids| == |keys|
    ensures Flat(t, h) + Trail(keys, kids, h) ==
            Weave(([t] + kids)[..|keys|], keys, h) + Flat(([t] + kids)[|keys|], h)
    decreases |keys|
  {
    hide Flat;
    if keys != [] {
      TrailShift(kids[0], keys[1..], kids[1..], h);
      var all, rest := [t] + kids, [kids[0]] + kids[1..];
      assert all[..|keys|][1..] == rest[..|keys[1..]|] && all[|keys|] == rest[|keys[1..]|];
      var f, k, f0, T := Flat(t, h), [keys[0]], Flat(kids[0], h), Trail(keys[1..], kids[1..], h);
      var W, L := Weave(rest[..|keys[1..]|], keys[1..], h), Flat(rest[|keys[1..]|], h);
      assert f + (k + f0 + T) == f + k + (f0 + T);
      assert f + k + (W + L) == f + k + W + L;
    }
  }

  lemma WeaveAround<K>(a: seq<Tree<K>>, ka: seq<K>, c: Tree<K>, d: K, b: seq<Tree<K>>, kb: seq<K>, h: nat)
    requires |a| == |ka| && |b| == |kb|
    ensures Weave(a + [c] + b, ka + [d] + kb, h) == Weave(a, ka, h) + (Flat(c, h) + [d]) + Weave(b, kb, h)
  {
    hide Flat, Weave;
    WeaveSplit(a, ka, [c], [d], h);
    WeaveSplit(a + [c], ka + [d], b, kb, h);
    WeaveOne(c, d, h);
  }

  lemma WeaveOne<K>(c: Tree<K>, d: K, h: nat)
    ensures Weave([c], [d], h) == Flat(c, h) + [d]
  {
    hide Flat;
    var keys, kids := [d], [c];
    assert keys[1..] == [] && kids[1..] == [];
  }

  // ----- Nodes side by side --------------------------------------------------------------------------------

  predicate Shaped<K>(t: Tree<K>, leaf: bool) {
    if leaf then t.kids == [] else |t.kids| == |t.keys| + 1
  }

  /** One node of all that two siblings and the key between them hold. */
  function Join<K>(left: Tree<K>, d: K, right: Tree<K>): Tree<K> {
    FromCells(Node.Join(Node.Siblings(Cells(left), d, Cells(right))))
  }

  lemma FlatJoin<K>(left: Tree<K>, d: K, right: Tree<K>, h: nat)
    requires Shaped(left, h == 0) && Shaped(right, h == 0)
    ensures Flat(Join(left, d, right), h) == Flat(left, h) + [d] + Flat(right, h)
  {
    hide Weave;
    if h > 0 {
      var m, n := |left.keys|, |right.keys|;
      var j := Join(left, d, right);
      WeaveAround(left.kids[..m], left.keys, left.kids[m], d, right.kids[..n], right.keys, h - 1);
      assert j.kids[..|j.keys|] == left.kids[..m] + [left.kids[m]] + right.kids[..n];
      assert j.kids[|j.keys|] == right.kids[n];
    }
  }

  /** How many keys of the tree come before position `pos` of its root: before the key that would be
      put there, or, above the leaves, before the subtree that is there. */
  function Rank<K>(t: Tree<K>, pos: nat, h: nat): nat
    requires Shaped(t, h == 0) && pos <= |t.keys|
  {
    if h == 0 then pos else |Weave(t.kids[..pos], t.keys[..pos], h - 1)|
  }

  /** How many keys come before the key at position `pos`, or, at the last one, before what follows the
      tree: what an iterator stands for. */
  function KeyRank<K>(t: Tree<K>, pos: nat, h: nat): nat
    requires Shaped(t, h == 0) && pos <= |t.keys|
  {
    if h == 0 then pos else Rank(t, pos, h) + |Flat(t.kids[pos], h - 1)|
  }

  lemma KeyRankEnd<K>(t: Tree<K>, h: nat)
    requires Shaped(t, h == 0)
    ensures KeyRank(t, |t.keys|, h) == |Flat(t, h)|
  {
    hide Weave;
    if h > 0 {
      FlatOpened(t, h - 1);
      assert t.keys[..|t.keys|] == t.keys;
    }
  }

  lemma KeyAt<K>(t: Tree<K>, pos: nat, h: nat)
    requires Shaped(t, h == 0) && pos < |t.keys|
    ensures KeyRank(t, pos, h) < |Flat(t, h)| && Flat(t, h)[KeyRank(t, pos, h)] == t.keys[pos]
  {
    hide Weave;
    if h > 0 {
      var m := |t.keys|;
      FlatOpened(t, h - 1);
      WeaveAround(t.kids[..pos], t.keys[..pos], t.kids[pos], t.keys[pos], t.kids[pos + 1..m], t.keys[pos + 1..], h - 1);
      assert t.kids[..pos] + [t.kids[pos]] + t.kids[pos + 1..m] == t.kids[..m];
      assert t.keys[..pos] + [t.keys[pos]] + t.keys[pos + 1..] == t.keys;
    }
  }

  lemma RankJoin<K>(left: Tree<K>, d: K, right: Tree<K>, h: nat, pos: nat)
    requires Shaped(left, h == 0) && Shaped(right, h == 0)
    ensures pos <= |left.keys| ==> Rank(Join(left, d, right), pos, h) == Rank(left, pos, h)
    ensures pos <= |right.keys| ==>
          Rank(Join(left, d, right), |left.keys| + 1 + pos, h) == |Flat(left, h)| + 1 + Rank(right, pos, h)
  {
    if pos <= |left.keys| { RankJoinLeft(left, d, right, h, pos); }
    if pos <= |right.keys| { RankJoinRight(left, d, right, h, pos); }
  }

  lemma RankJoinLeft<K>(left: Tree<K>, d: K, right: Tree<K>, h: nat, pos: nat)
    requires Shaped(left, h == 0) && Shaped(right, h == 0) && pos <= |left.keys|
    ensures Rank(Join(left, d, right), pos, h) == Rank(left, pos, h)
  {
    hide Weave;
    if h > 0 {
      var j := Join(left, d, right);
      assert j.kids[..pos] == left.kids[..pos] && j.keys[..pos] == left.keys[..pos];
    }
  }

  lemma RankJoinRight<K>(left: Tree<K>, d: K, right: Tree<K>, h: nat, pos: nat)
    requires Shaped(left, h == 0) && Shaped(right, h == 0) && pos <= |right.keys|
    ensures Rank(Join(left, d, right), |left.keys| + 1 + pos, h) == |Flat(left, h)| + 1 + Rank(right, pos, h)
  {
    hide Weave;
    if h > 0 {
      var m, j := |left.keys|, Join(left, d, right);
      WeaveAround(left.kids[..m], left.keys, left.kids[m], d, right.kids[..pos], right.keys[..pos], h - 1);
      assert j.kids[..m + 1 + pos] == left.kids[..m] + [left.kids[m]] + right.kids[..pos];
      assert j.keys[..m + 1 + pos] == left.keys + [d] + right.keys[..pos];
    }
  }

  /** Two siblings and the key between them. */
  datatype Pair<K> = Pair(left: Tree<K>, d: K, right: Tree<K>) {
    function Joined(): Tree<K> {
      Join(left, d, right)
    }

    ghost predicate Ok(leaf: bool) {
      Shaped(left, leaf) && Shaped(right, leaf)
    }
  }

  function Cells<K>(t: Tree<K>): Node.Cells<K, Tree<K>> {
    Node.Cells(t.keys, t.kids)
  }

  function FromCells<K>(c: Node.Cells<K, Tree<K>>): Tree<K> {
    Tree(c.keys, c.kids)
  }

  function FromSiblings<K>(s: Node.Siblings<K, Tree<K>>): Pair<K> {
    Pair(FromCells(s.left), s.d, FromCells(s.right))
  }

  /** rebalance_right_to_left, as the nodes do it in place. */
  function RightToLeft<K>(p: Pair<K>, toMove: nat): Pair<K>
    requires 1 <= toMove <= |p.right.keys| && (p.right.kids == [] || toMove <= |p.right.kids|)
  {
    FromSiblings(Node.RightToLeft(Node.Siblings(Cells(p.left), p.d, Cells(p.right)), toMove))
  }

  /** rebalance_left_to_right */
  function LeftToRight<K>(p: Pair<K>, toMove: nat): Pair<K>
    requires 1 <= toMove <= |p.left.keys| && (p.left.kids == [] || toMove <= |p.left.kids|)
  {
    FromSiblings(Node.LeftToRight(Node.Siblings(Cells(p.left), p.d, Cells(p.right)), toMove))
  }

  /** split */
  function Split<K>(N: nat, t: Tree<K>, pos: nat): Pair<K>
    requires 1 <= N == |t.keys| && (t.kids == [] || |t.kids| == N + 1)
  {
    FromSiblings(Node.SplitAt(N, Cells(t), pos))
  }

  /** What is moved between siblings, or split off, only moves the boundary within the same keys and
      subtrees. */
  lemma RightToLeftKeeps<K>(p: Pair<K>, toMove: nat, leaf: bool)
    requires p.Ok(leaf) && 1 <= toMove <= |p.right.keys|
    ensures RightToLeft(p, toMove).Joined() == p.Joined() && RightToLeft(p, toMove).Ok(leaf)
    ensures |RightToLeft(p, toMove).left.keys| == |p.left.keys| + toMove
    ensures |RightToLeft(p, toMove).right.keys| == |p.right.keys| - toMove
  {
    var keys, kids := p.right.keys, p.right.kids;
    assert keys == keys[..toMove - 1] + [keys[toMove - 1]] + keys[toMove..];
    if !leaf { assert kids == kids[..toMove] + kids[toMove..]; }
  }

  lemma LeftToRightKeeps<K>(p: Pair<K>, toMove: nat, leaf: bool)
    requires p.Ok(leaf) && 1 <= toMove <= |p.left.keys|
    ensures LeftToRight(p, toMove).Joined() == p.Joined() && LeftToRight(p, toMove).Ok(leaf)
    ensures |LeftToRight(p, toMove).left.keys| == |p.left.keys| - toMove
    ensures |LeftToRight(p, toMove).right.keys| == |p.right.keys| + toMove
  {
    var keys, kids, n := p.left.keys, p.left.kids, |p.left.keys| - toMove;
    assert keys == keys[..n] + [keys[n]] + keys[n + 1..];
    if !leaf { assert kids == kids[..n + 1] + kids[n + 1..]; }
  }

  lemma SplitKeepsJoined<K>(N: nat, t: Tree<K>, pos: nat, leaf: bool)
    requires 1 <= N == |t.keys| && Shaped(t, leaf)
    ensures Split(N, t, pos).Joined() == t && Split(N, t, pos).Ok(leaf)
  {}

  // ----- A place in a tree -----------------------------------------------------------------------------------

  /** A node but for one subtree: what is to the left of it and to the right. */
  datatype Frame<K> = Frame(lkids: seq<Tree<K>>, lkeys: seq<K>, rkeys: seq<K>, rkids: seq<Tree<K>>) {
    predicate Shaped() {
      |lkids| == |lkeys| && |rkids| == |rkeys|
    }

    function Plug(t: Tree<K>): Tree<K> {
      Tree(lkeys + rkeys, lkids + [t] + rkids)
    }

    /** The keys of the node, where those of its missing subtree are `s`. */
    function Around(s: seq<K>, h: nat): seq<K>
      requires Shaped()
    {
      Weave(lkids, lkeys, h) + s + Trail(rkeys, rkids, h)
    }

    function Before(rank: nat, h: nat): nat
      requires Shaped()
    {
      |Weave(lkids, lkeys, h)| + rank
    }

    ghost predicate Ok(N: nat, h: nat) {
      && Shaped() && |lkeys| + |rkeys| <= N
      && (forall k :: k in lkids ==> NodeOk(k, N, h)) && forall k :: k in rkids ==> NodeOk(k, N, h)
    }
  }

  function Open<K>(t: Tree<K>, i: nat): Frame<K>
    requires i <= |t.keys| && |t.kids| == |t.keys| + 1
  {
    Frame(t.kids[..i], t.keys[..i], t.keys[i..], t.kids[i + 1..])
  }

  /** A node with no more keys than fit, and all below it alike. */
  ghost predicate NodeOk<K>(t: Tree<K>, N: nat, h: nat)
    decreases h
  {
    && Shaped(t, h == 0) && |t.keys| <= N
    && (h > 0 ==> forall k :: k in t.kids ==> NodeOk(k, N, h - 1))
  }

  /** What is above and beside a node, from its parent up to the root. */
  datatype Ctx<K> = Top | In(f: Frame<K>, up: Ctx<K>)

  ghost predicate CtxOk<K>(ctx: Ctx<K>, N: nat, h: nat) {
    ctx.In? ==> ctx.f.Ok(N, h) && CtxOk(ctx.up, N, h + 1)
  }

  function Whole<K>(ctx: Ctx<K>, s: seq<K>, h: nat): seq<K>
    requires Framed(ctx)
  {
    match ctx
    case Top => s
    case In(f, up) => Whole(up, f.Around(s, h), h + 1)
  }

  function Before<K>(ctx: Ctx<K>, rank: nat, h: nat): nat
    requires Framed(ctx)
  {
    match ctx
    case Top => rank
    case In(f, up) => Before(up, f.Before(rank, h), h + 1)
  }

  predicate Framed<K>(ctx: Ctx<K>) {
    ctx.In? ==> ctx.f.Shaped() && Framed(ctx.up)
  }

  lemma {:induction false} OkFramed<K>(ctx: Ctx<K>, N: nat, h: nat)
    requires CtxOk(ctx, N, h)
    ensures Framed(ctx)
  {
    if ctx.In? { OkFramed(ctx.up, N, h + 1); }
  }

  /** The iterator: a node, and a position in it. */
  datatype Place<K> = Place(ctx: Ctx<K>, node: Tree<K>, pos: nat) {
    ghost predicate Ok(N: nat, h: nat) {
      CtxOk(ctx, N, h) && NodeOk(node, N, h) && pos <= |node.keys|
    }

    /** The keys of the whole tree. */
    ghost function InOrder(h: nat): seq<K>
      requires Framed(ctx)
    {
      Whole(ctx, Flat(node, h), h)
    }

    /** How many of them come before the place. */
    ghost function RankOf(h: nat): nat
      requires Framed(ctx) && Shaped(node, h == 0) && pos <= |node.keys|
    {
      Before(ctx, Rank(node, pos, h), h)
    }

    ghost function KeyRankOf(h: nat): nat
      requires Framed(ctx) && Shaped(node, h == 0) && pos <= |node.keys|
    {
      Before(ctx, KeyRank(node, pos, h), h)
    }
  }

  /** Going on from one place to another in the same tree as far as its keys are concerned: the same
      keys in order, as many of them before the place, and, above the leaves, the same subtree there. */
  ghost predicate SamePlace<K>(z: Place<K>, z': Place<K>, N: nat, h: nat) {
    && z.Ok(N, h) && z'.Ok(N, h) && Framed(z.ctx) && Framed(z'.ctx)
    && z'.InOrder(h) == z.InOrder(h) && z'.RankOf(h) == z.RankOf(h)
    && (h > 0 ==> z'.node.kids[z'.pos] == z.node.kids[z.pos])
  }

  // ----- A place in one of two siblings -------------------------------------------------------------------

  function FocusLeft<K>(f: Frame<K>, p: Pair<K>): Frame<K> {
    Frame(f.lkids, f.lkeys, [p.d] + f.rkeys, [p.right] + f.rkids)
  }

  function FocusRight<K>(f: Frame<K>, p: Pair<K>): Frame<K> {
    Frame(f.lkids + [p.left], f.lkeys + [p.d], f.rkeys, f.rkids)
  }

  /** The place that is position q of all that two siblings hold. */
  ghost predicate At<K>(z: Place<K>, up: Ctx<K>, f: Frame<K>, p: Pair<K>, q: nat) {
    && q <= |p.left.keys| + 1 + |p.right.keys|
    && (q <= |p.left.keys| ==> z == Place(In(FocusLeft(f, p), up), p.left, q))
    && (q > |p.left.keys| ==> z == Place(In(FocusRight(f, p), up), p.right, q - |p.left.keys| - 1))
  }

  lemma FocusKeeps<K>(f: Frame<K>, p: Pair<K>, h: nat)
    requires f.Shaped() && p.Ok(h == 0)
    ensures FocusLeft(f, p).Around(Flat(p.left, h), h) == f.Around(Flat(p.Joined(), h), h)
    ensures FocusRight(f, p).Around(Flat(p.right, h), h) == f.Around(Flat(p.Joined(), h), h)
    ensures Weave(f.lkids + [p.left], f.lkeys + [p.d], h) == Weave(f.lkids, f.lkeys, h) + (Flat(p.left, h) + [p.d])
  {
    hide Flat, Weave;
    FlatJoin(p.left, p.d, p.right, h);
    WeaveAround(f.lkids, f.lkeys, p.left, p.d, [], [], h);
    assert f.lkids + [p.left] + [] == f.lkids + [p.left] && f.lkeys + [p.d] + [] == f.lkeys + [p.d];
    WeaveNone<K>(h);
    assert ([p.d] + f.rkeys)[1..] == f.rkeys && ([p.right] + f.rkids)[1..] == f.rkids;
  }

  lemma WeaveNone<K>(h: nat)
    ensures Weave<K>([], [], h) == []
  {}

  /** Where the place is in the joined node is all that matters of it. */
  lemma AtKeeps<K>(z: Place<K>, up: Ctx<K>, f: Frame<K>, p: Pair<K>, q: nat, h: nat)
    requires At(z, up, f, p, q) && f.Shaped() && Framed(up) && p.Ok(h == 0)
    ensures Framed(z.ctx) && Shaped(z.node, h == 0) && z.pos <= |z.node.keys|
    ensures z.InOrder(h) == Whole(up, f.Around(Flat(p.Joined(), h), h), h + 1)
    ensures z.RankOf(h) == Before(up, f.Before(Rank(p.Joined(), q, h), h), h + 1)
    ensures h > 0 ==> z.node.kids[z.pos] == p.Joined().kids[q]
  {
    hide Flat, Weave, Rank;
    FocusKeeps(f, p, h);
    if q <= |p.left.keys| {
      RankJoin(p.left, p.d, p.right, h, q);
    } else {
      RankJoin(p.left, p.d, p.right, h, q - |p.left.keys| - 1);
    }
  }

  ghost predicate KidsOk<K>(t: Tree<K>, N: nat, h: nat) {
    h > 0 ==> forall k :: k in t.kids ==> NodeOk(k, N, h - 1)
  }

  lemma JoinedOk<K>(p: Pair<K>, N: nat, h: nat)
    requires NodeOk(p.left, N, h) && NodeOk(p.right, N, h)
    ensures KidsOk(p.Joined(), N, h) && p.Ok(h == 0)
  {}

  lemma PartsOk<K>(p: Pair<K>, t: Tree<K>, N: nat, h: nat)
    requires p.Joined() == t && KidsOk(t, N, h) && p.Ok(h == 0) && |p.left.keys| <= N && |p.right.keys| <= N
    ensures NodeOk(p.left, N, h) && NodeOk(p.right, N, h)
  {
    if h > 0 {
      forall k | k in p.left.kids || k in p.right.kids
        ensures NodeOk(k, N, h - 1)
      {
        assert k in p.Joined().kids;
      }
    }
  }

  /** Two siblings, and the node without them, all within bounds. */
  ghost predicate PairOk<K>(up: Ctx<K>, f: Frame<K>, p: Pair<K>, N: nat, h: nat) {
    && f.Ok(N, h) && |f.lkeys| + |f.rkeys| + 1 <= N && CtxOk(up, N, h + 1)
    && NodeOk(p.left, N, h) && NodeOk(p.right, N, h)
  }

  /** A boundary that moves within the same keys and subtrees takes no place anywhere else. */
  lemma SameJoined<K>(z: Place<K>, z': Place<K>, up: Ctx<K>, f: Frame<K>, p: Pair<K>, p': Pair<K>, q: nat, N: nat,
                      h: nat)
    requires At(z, up, f, p, q) && At(z', up, f, p', q) && p'.Joined() == p.Joined()
    requires PairOk(up, f, p, N, h) && PairOk(up, f, p', N, h)
    ensures SamePlace(z, z', N, h)
  {
    hide Flat, Weave, Rank, Whole, Before;
    OkFramed(up, N, h + 1);
    AtKeeps(z, up, f, p, q, h);
    AtKeeps(z', up, f, p', q, h);
    AtOk(z, up, f, p, q, N, h);
    AtOk(z', up, f, p', q, N, h);
  }

  // ----- Nodes without keys ----------------------------------------------------------------------------------

  /** The node and all below it have keys. */
  ghost predicate Filled<K>(t: Tree<K>, h: nat)
    decreases h
  {
    t.keys != [] && (h > 0 ==> forall k :: k in t.kids ==> Filled(k, h - 1))
  }

  ghost predicate KidsFilled<K>(t: Tree<K>, h: nat) {
    h > 0 ==> forall k :: k in t.kids ==> Filled(k, h - 1)
  }

  ghost predicate Beside<K>(f: Frame<K>, h: nat) {
    (forall k :: k in f.lkids ==> Filled(k, h)) && forall k :: k in f.rkids ==> Filled(k, h)
  }

  ghost predicate CtxFilled<K>(ctx: Ctx<K>, h: nat) {
    ctx.In? ==> Beside(ctx.f, h) && ctx.f.lkeys + ctx.f.rkeys != [] && CtxFilled(ctx.up, h + 1)
  }

  /** No node of the tree lacks keys, but perhaps the one the place is in, */
  ghost predicate NoneEmpty<K>(z: Place<K>, h: nat) {
    CtxFilled(z.ctx, h) && KidsFilled(z.node, h)
  }

  /** and that one's parent. */
  ghost predicate NearlyFilled<K>(z: Place<K>, h: nat) {
    KidsFilled(z.node, h) && (z.ctx.In? ==> Beside(z.ctx.f, h) && CtxFilled(z.ctx.up, h + 1))
  }

  /** No node lacks keys at all, but for the root of an empty tree. */
  ghost predicate AllFilled<K>(z: Place<K>, h: nat) {
    NoneEmpty(z, h) && (z.ctx.In? || h > 0 ==> z.node.keys != [])
  }

  lemma JoinedFilled<K>(p: Pair<K>, h: nat)
    requires KidsFilled(p.left, h) && KidsFilled(p.right, h)
    ensures KidsFilled(p.Joined(), h) && p.Joined().keys != []
  {}

  lemma KidsOfFilled<K>(t: Tree<K>, h: nat)
    ensures Filled(t, h) <==> t.keys != [] && KidsFilled(t, h)
  {}

  /** Two siblings that hold what one node did leave no node empty, but perhaps the one the place is in. */
  lemma PartsFilled<K>(z: Place<K>, up: Ctx<K>, f: Frame<K>, p: Pair<K>, q: nat, h: nat)
    requires At(z, up, f, p, q) && KidsFilled(p.Joined(), h) && Beside(f, h) && CtxFilled(up, h + 1)
    requires if q <= |p.left.keys| then p.right.keys != [] else p.left.keys != []
    ensures NoneEmpty(z, h)
  {
    var t := p.Joined();
    assert forall k :: k in p.left.kids || k in p.right.kids ==> k in t.kids;
  }

  lemma BesideLeft<K>(f: Frame<K>, h: nat)
    requires Beside(f, h) && f.lkids != [] && f.Shaped()
    ensures Beside(WithoutLeft(f), h) && Filled(f.lkids[|f.lkids| - 1], h)
  {}

  lemma BesideRight<K>(f: Frame<K>, h: nat)
    requires Beside(f, h) && f.rkids != [] && f.Shaped()
    ensures Beside(WithoutRight(f), h) && Filled(f.rkids[0], h)
  {}

  lemma PlugFilled<K>(f: Frame<K>, t: Tree<K>, h: nat)
    requires Beside(f, h) && Filled(t, h)
    ensures KidsFilled(f.Plug(t), h + 1)
  {}

  lemma OpenFilled<K>(t: Tree<K>, i: nat, h: nat)
    requires KidsFilled(t, h + 1) && i <= |t.keys| && |t.kids| == |t.keys| + 1
    ensures Beside(Open(t, i), h) && Filled(t.kids[i], h) && Open(t, i).lkeys + Open(t, i).rkeys == t.keys
  {
    forall k | k in t.kids
      ensures Filled(k, h)
    {
      assert Filled(k, h + 1 - 1);
    }
  }

  lemma AtOk<K>(z: Place<K>, up: Ctx<K>, f: Frame<K>, p: Pair<K>, q: nat, N: nat, h: nat)
    requires At(z, up, f, p, q) && PairOk(up, f, p, N, h)
    ensures z.Ok(N, h)
  {}

  // ----- Making room -------------------------------------------------------------------------------------------

  /** The last of the subtrees to the left becomes one of the two siblings. */
  function WithoutLeft<K>(f: Frame<K>): Frame<K>
    requires f.Shaped() && f.lkids != []
  {
    f.(lkids := f.lkids[..|f.lkids| - 1], lkeys := f.lkeys[..|f.lkeys| - 1])
  }

  function WithoutRight<K>(f: Frame<K>): Frame<K>
    requires f.Shaped() && f.rkids != []
  {
    f.(rkids := f.rkids[1..], rkeys := f.rkeys[1..])
  }

  function Min(a: nat, b: nat): nat {
    if a <= b then a else b
  }

  function Max(a: int, b: int): int {
    if a >= b then a else b
  }

  lemma FlatOpened<K>(t: Tree<K>, h: nat)
    requires Shaped(t, false)
    ensures Flat(t, h + 1) == Weave(t.kids[..|t.keys|], t.keys, h) + Flat(t.kids[|t.keys|], h)
  {}

  /** A node given its place in the parent again. */
  lemma PlugFlat<K>(f: Frame<K>, t: Tree<K>, h: nat)
    requires f.Shaped()
    ensures Flat(f.Plug(t), h + 1) == f.Around(Flat(t, h), h)
    ensures Rank(f.Plug(t), |f.lkids|, h + 1) == |Weave(f.lkids, f.lkeys, h)|
  {
    hide Weave;
    var n, p, rest := |f.rkeys|, f.Plug(t), [t] + f.rkids;
    WeaveSplit(f.lkids, f.lkeys, rest[..n], f.rkeys, h);
    TrailShift(t, f.rkeys, f.rkids, h);
    assert p.kids == f.lkids + rest && p.kids[..|p.keys|] == f.lkids + rest[..n] && p.kids[|p.keys|] == rest[n];
    assert p.kids[..|f.lkids|] == f.lkids && p.keys[..|f.lkids|] == f.lkeys;
    FlatOpened(p, h);
    var W, W', T := Weave(f.lkids, f.lkeys, h), Weave(rest[..n], f.rkeys, h), Trail(f.rkeys, f.rkids, h);
    var s, L := Flat(t, h), Flat(rest[n], h);
    assert W + (s + T) == W + s + T && W + (W' + L) == W + W' + L;
  }

  lemma OpenPlug<K>(t: Tree<K>, i: nat, N: nat, h: nat)
    requires NodeOk(t, N, h + 1) && i <= |t.keys|
    ensures Open(t, i).Ok(N, h) && Open(t, i).Plug(t.kids[i]) == t && |Open(t, i).lkids| == i
    ensures NodeOk(t.kids[i], N, h)
  {
    var f := Open(t, i);
    assert f.lkids + [t.kids[i]] + f.rkids == t.kids && f.lkeys + f.rkeys == t.keys;
    forall k | k in t.kids
      ensures NodeOk(k, N, h)
    {
      assert NodeOk(k, N, h + 1 - 1);
    }
  }

  /** A place in a subtree, and that of the subtree in its parent: if the parent's stays, so does it. */
  lemma Within<K>(z: Place<K>, parent: Place<K>, parent': Place<K>, z': Place<K>, N: nat, h: nat)
    requires z.Ok(N, h) && z.ctx.In? && parent == Place(z.ctx.up, z.ctx.f.Plug(z.node), |z.ctx.f.lkids|)
    requires SamePlace(parent, parent', N, h + 1)
    requires z' == Place(In(Open(parent'.node, parent'.pos), parent'.ctx), z.node, z.pos)
    ensures SamePlace(z, z', N, h)
  {
    hide Flat, Weave;
    OkFramed(z.ctx, N, h);
    OpenPlug(parent'.node, parent'.pos, N, h);
    PlugFlat(z.ctx.f, z.node, h);
    PlugFlat(z'.ctx.f, z.node, h);
    OkFramed(z'.ctx, N, h);
    assert z.ctx.f.Plug(z.node).kids[|z.ctx.f.lkids|] == z.node;
    BeforeShifts(z.ctx.up, |Weave(z.ctx.f.lkids, z.ctx.f.lkeys, h)|, Rank(z.node, z.pos, h), h + 1);
    BeforeShifts(z'.ctx.up, |Weave(z'.ctx.f.lkids, z'.ctx.f.lkeys, h)|, Rank(z.node, z.pos, h), h + 1);
  }

  lemma {:induction false} BeforeShifts<K>(ctx: Ctx<K>, a: nat, b: nat, h: nat)
    requires Framed(ctx)
    ensures Before(ctx, a + b, h) == Before(ctx, a, h) + b
  {
    if ctx.In? { BeforeShifts(ctx.up, ctx.f.Before(a, h), b, h + 1); }
  }

  /** The node is split in two, where its parent has room. */
  method SplitNode<K>(N: nat, z: Place<K>, ghost h: nat) returns (z': Place<K>)
    requires N >= 1 && z.Ok(N, h) && z.ctx.In? && |z.ctx.f.lkeys| + |z.ctx.f.rkeys| < N && |z.node.keys| == N
    ensures SamePlace(z, z', N, h) && |z'.node.keys| < N
    ensures N >= 3 && NearlyFilled(z, h) ==> NoneEmpty(z', h)
  {
    hide Flat, Weave, Rank, Whole, Before, KidsFilled, Beside, CtxFilled;
    var p := Split(N, z.node, z.pos);
    SplitKeepsJoined(N, z.node, z.pos, h == 0);
    NodeKidsOk(z.node, N, h);
    PartsOk(p, z.node, N, h);
    if z.pos > |p.left.keys| {
      z' := Place(In(FocusRight(z.ctx.f, p), z.ctx.up), p.right, z.pos - |p.left.keys| - 1);
    } else {
      z' := Place(In(FocusLeft(z.ctx.f, p), z.ctx.up), p.left, z.pos);
    }
    OkFramed(z.ctx, N, h);
    AtOk(z', z.ctx.up, z.ctx.f, p, z.pos, N, h);
    AtKeeps(z', z.ctx.up, z.ctx.f, p, z.pos, h);
    UpOne(z, h);
    if N >= 3 && NearlyFilled(z, h) { PartsFilled(z', z.ctx.up, z.ctx.f, p, z.pos, h); }
  }

  lemma NodeKidsOk<K>(t: Tree<K>, N: nat, h: nat)
    requires NodeOk(t, N, h)
    ensures KidsOk(t, N, h) && Shaped(t, h == 0) && |t.keys| <= N
  {}

  lemma UpOne<K>(z: Place<K>, h: nat)
    requires z.ctx.In? && Framed(z.ctx) && Shaped(z.node, h == 0) && z.pos <= |z.node.keys|
    ensures z.InOrder(h) == Whole(z.ctx.up, z.ctx.f.Around(Flat(z.node, h), h), h + 1)
    ensures z.RankOf(h) == Before(z.ctx.up, z.ctx.f.Before(Rank(z.node, z.pos, h), h), h + 1)
  {}

  /** Keys moved between a node and its left sibling leave no node empty, but perhaps the one the place is
      in; */
  lemma MovedLeftFilled<K>(z: Place<K>, z': Place<K>, p: Pair<K>, p': Pair<K>, q: nat, h: nat)
    requires z.ctx.In? && z.ctx.f.Shaped() && z.ctx.f.lkids != [] && NoneEmpty(z, h) && p.right == z.node
    requires p.left == z.ctx.f.lkids[|z.ctx.f.lkids| - 1] && p'.Joined() == p.Joined()
    requires At(z', z.ctx.up, WithoutLeft(z.ctx.f), p', q)
    requires p.left.keys != [] ==> if q <= |p'.left.keys| then p'.right.keys != [] else p'.left.keys != []
    ensures NoneEmpty(z', h)
  {
    hide Filled, KidsFilled, Beside, At;
    BesideLeft(z.ctx.f, h);
    KidsOfFilled(p.left, h);
    JoinedFilled(p, h);
    PartsFilled(z', z.ctx.up, WithoutLeft(z.ctx.f), p', q, h);
  }

  /** nor do keys moved between it and its right sibling. */
  lemma MovedRightFilled<K>(z: Place<K>, z': Place<K>, p: Pair<K>, p': Pair<K>, q: nat, h: nat)
    requires z.ctx.In? && z.ctx.f.Shaped() && z.ctx.f.rkids != [] && NoneEmpty(z, h) && p.left == z.node
    requires p.right == z.ctx.f.rkids[0] && p'.Joined() == p.Joined()
    requires At(z', z.ctx.up, WithoutRight(z.ctx.f), p', q)
    requires p.right.keys != [] ==> if q <= |p'.left.keys| then p'.right.keys != [] else p'.left.keys != []
    ensures NoneEmpty(z', h)
  {
    hide Filled, KidsFilled, Beside, At;
    BesideRight(z.ctx.f, h);
    KidsOfFilled(p.right, h);
    JoinedFilled(p, h);
    PartsFilled(z', z.ctx.up, WithoutRight(z.ctx.f), p', q, h);
  }

  /** How many keys go to a sibling with this much room: all it takes, or half of that, but one at least. */
  function Share(room: nat, half: bool): (n: nat)
    ensures 1 <= n && (room >= 1 ==> n <= room)
  {
    Max(1, room / (1 + if half then 1 else 0))
  }

  /** The left sibling has room for keys of the node, and, if for one only, it need not be the new one. */
  ghost predicate RoomOnLeft<K>(z: Place<K>, N: nat) {
    && z.ctx.In? && z.ctx.f.lkids != []
    && var n := |z.ctx.f.lkids[|z.ctx.f.lkids| - 1].keys|; n < N && (n + 1 < N || z.pos > 0)
  }

  ghost predicate RoomOnRight<K>(z: Place<K>, N: nat) {
    && z.ctx.In? && z.ctx.f.rkids != []
    && var n := |z.ctx.f.rkids[0].keys|; n < N && (n + 1 < N || z.pos < N)
  }

  /** Nothing but the siblings of the node and the keys between them is not what it was. */
  ghost predicate SameAbove<K>(z: Place<K>, z': Place<K>) {
    && z.ctx.In? && z'.ctx.In? && z'.ctx.up == z.ctx.up
    && |z'.ctx.f.lkeys| + |z'.ctx.f.rkeys| == |z.ctx.f.lkeys| + |z.ctx.f.rkeys|
  }

  /** Where there is room for more than one key, there is after the move; where there is for one only, it
      must not be the one the room is for. */
  lemma ShareLeaves(N: nat, n: nat, place: nat)
    requires n < N && place <= N
    ensures var m := Share(N - n, place < N); m <= place || n + m < N <==> n + 1 < N || place > 0
  {}

  /** The left sibling takes keys of a full node. */
  method RoomFromLeft<K>(N: nat, z: Place<K>, ghost h: nat) returns (done: bool, z': Place<K>)
    requires z.Ok(N, h) && z.ctx.In? && z.ctx.f.lkids != [] && |z.node.keys| == N
    ensures done <==> RoomOnLeft(z, N)
    ensures done ==> SamePlace(z, z', N, h) && |z'.node.keys| < N && SameAbove(z, z')
    ensures done && N >= 2 && NoneEmpty(z, h) ==> NoneEmpty(z', h)
  {
    hide Flat, Weave, Rank, Whole, Before, NoneEmpty, Share, RightToLeft, LeftToRight,
         SamePlace;
    var f, t, pos := z.ctx.f, z.node, z.pos;
    var left := f.lkids[|f.lkids| - 1];
    if |left.keys| >= N {
      return false, z;
    }
    var toMove := Share(N - |left.keys|, pos < N);
    ShareLeaves(N, |left.keys|, pos);
    if !(pos - toMove >= 0 || |left.keys| + toMove < N) {
      return false, z;
    }
    var f0, p := WithoutLeft(f), Pair(left, f.lkeys[|f.lkeys| - 1], t);
    var p' := RightToLeft(p, toMove);
    JoinedOk(p, N, h);
    RightToLeftKeeps(p, toMove, h == 0);
    PartsOk(p', p.Joined(), N, h);
    if pos - toMove < 0 {
      z' := Place(In(FocusLeft(f0, p'), z.ctx.up), p'.left, pos - toMove + |p'.left.keys| + 1);
    } else {
      z' := Place(In(FocusRight(f0, p'), z.ctx.up), p'.right, pos - toMove);
    }
    SameJoined(z, z', z.ctx.up, f0, p, p', |left.keys| + 1 + pos, N, h);
    if N >= 2 && NoneEmpty(z, h) { MovedLeftFilled(z, z', p, p', |left.keys| + 1 + pos, h); }
    return true, z';
  }

  /** The right sibling takes keys of a full node. */
  method RoomFromRight<K>(N: nat, z: Place<K>, ghost h: nat) returns (done: bool, z': Place<K>)
    requires z.Ok(N, h) && z.ctx.In? && z.ctx.f.rkids != [] && |z.node.keys| == N
    ensures done <==> RoomOnRight(z, N)
    ensures done ==> SamePlace(z, z', N, h) && |z'.node.keys| < N && SameAbove(z, z')
    ensures done && N >= 2 && NoneEmpty(z, h) ==> NoneEmpty(z', h)
  {
    hide Flat, Weave, Rank, Whole, Before, NoneEmpty, Share, RightToLeft, LeftToRight,
         SamePlace;
    var f, t, pos := z.ctx.f, z.node, z.pos;
    var right := f.rkids[0];
    if |right.keys| >= N {
      return false, z;
    }
    var toMove := Share(N - |right.keys|, pos > 0);
    ShareLeaves(N, |right.keys|, N - pos);
    if !(pos <= |t.keys| - toMove || |right.keys| + toMove < N) {
      return false, z;
    }
    var f0, p := WithoutRight(f), Pair(t, f.rkeys[0], right);
    var p' := LeftToRight(p, toMove);
    JoinedOk(p, N, h);
    LeftToRightKeeps(p, toMove, h == 0);
    PartsOk(p', p.Joined(), N, h);
    if pos > |p'.left.keys| {
      z' := Place(In(FocusRight(f0, p'), z.ctx.up), p'.right, pos - |p'.left.keys| - 1);
    } else {
      z' := Place(In(FocusLeft(f0, p'), z.ctx.up), p'.left, pos);
    }
    SameJoined(z, z', z.ctx.up, f0, p, p', pos, N, h);
    if N >= 2 && NoneEmpty(z, h) { MovedRightFilled(z, z', p, p', pos, h); }
    return true, z';
  }

  /** rebalance_or_split: afterwards there is room at the place, and it is the same place of the same keys. */
  method RebalanceOrSplit<K>(N: nat, z: Place<K>, ghost h: nat) returns (z': Place<K>)
    requires N >= 3 && z.Ok(N, h) && |z.node.keys| == N
    ensures SamePlace(z, z', N, h) && |z'.node.keys| < N
    ensures RoomOnLeft(z, N) || RoomOnRight(z, N) ==> SameAbove(z, z')
    ensures NoneEmpty(z, h) ==> NoneEmpty(z', h)
    decreases z.ctx
  {
    hide Flat, Weave, Rank, Whole, Before, NoneEmpty, NearlyFilled;
    match z.ctx
    case Top =>
      var root := Frame([], [], [], []);
      NewRoot(z, N, h);
      RootNearly(z, root, h);
      z' := SplitNode(N, Place(In(root, Top), z.node, z.pos), h);
    case In(f, up) =>
      var done := false;
      if f.lkids != [] {
        done, z' := RoomFromLeft(N, z, h);
      }
      if !done && f.rkids != [] {
        done, z' := RoomFromRight(N, z, h);
      }
      if done {
        return;
      }
      var here := z;
      if |f.lkeys| + |f.rkeys| == N {
        var parent := Place(up, f.Plug(z.node), |f.lkids|);
        PlugOk(f, z.node, N, h);
        if NoneEmpty(z, h) {
          NearlyItself(z, h);
          ParentFilled(z, h);
        }
        var parent' := RebalanceOrSplit(N, parent, h + 1);
        here := Place(In(Open(parent'.node, parent'.pos), parent'.ctx), z.node, z.pos);
        Within(z, parent, parent', here, N, h);
        if NoneEmpty(z, h) { BelowHere(z, parent', N, h); }
      } else if NoneEmpty(z, h) {
        NearlyItself(z, h);
      }
      z' := SplitNode(N, here, h);
  }

  lemma RootNearly<K>(z: Place<K>, f: Frame<K>, h: nat)
    requires f == Frame([], [], [], [])
    ensures NoneEmpty(z, h) ==> NearlyFilled(Place(In(f, Top), z.node, z.pos), h)
  {}

  lemma NearlyItself<K>(z: Place<K>, h: nat)
    requires NoneEmpty(z, h)
    ensures NearlyFilled(z, h)
  {}

  /** A node with keys, seen from its parent, leaves none empty. */
  lemma ParentFilled<K>(z: Place<K>, h: nat)
    requires NearlyFilled(z, h) && z.ctx.In? && z.node.keys != []
    ensures NoneEmpty(Place(z.ctx.up, z.ctx.f.Plug(z.node), |z.ctx.f.lkids|), h + 1)
  {
    KidsOfFilled(z.node, h);
    PlugFilled(z.ctx.f, z.node, h);
  }

  /** And a place in a subtree of a parent that does. */
  lemma BelowFilled<K>(z: Place<K>, parent: Place<K>, h: nat)
    requires KidsFilled(z.node, h) && NoneEmpty(parent, h + 1)
    requires |parent.node.kids| == |parent.node.keys| + 1 && parent.pos <= |parent.node.keys|
    ensures var z' := Place(In(Open(parent.node, parent.pos), parent.ctx), z.node, z.pos);
            NearlyFilled(z', h) && (parent.node.keys != [] ==> NoneEmpty(z', h))
  {
    OpenFilled(parent.node, parent.pos, h);
  }

  lemma BelowHere<K>(z: Place<K>, parent: Place<K>, N: nat, h: nat)
    requires NoneEmpty(z, h) && NoneEmpty(parent, h + 1) && parent.Ok(N, h + 1)
    ensures |parent.node.kids| == |parent.node.keys| + 1 && parent.pos <= |parent.node.keys|
    ensures var z' := Place(In(Open(parent.node, parent.pos), parent.ctx), z.node, z.pos);
            NearlyFilled(z', h) && (parent.node.keys != [] ==> NoneEmpty(z', h))
  {
    BelowFilled(z, parent, h);
  }

  lemma PlugOk<K>(f: Frame<K>, t: Tree<K>, N: nat, h: nat)
    requires f.Ok(N, h) && NodeOk(t, N, h)
    ensures NodeOk(f.Plug(t), N, h + 1)
  {}

  /** A new root above the old one, without keys. */
  lemma NewRoot<K>(z: Place<K>, N: nat, h: nat)
    requires z.Ok(N, h) && z.ctx == Top
    ensures SamePlace(z, Place(In(Frame([], [], [], []), Top), z.node, z.pos), N, h)
  {
    hide Flat, Rank;
    var f: Frame<K> := Frame([], [], [], []);
    var z' := Place(In(f, Top), z.node, z.pos);
    assert z.ctx.Top?;
    assert CtxOk(z.ctx, N, h + 1);
    OkFramed(z.ctx, N, h);
    OkFramed(z'.ctx, N, h);
    assert f.Around(Flat(z.node, h), h) == Flat(z.node, h);
    assert Whole(In(f, Top), Flat(z.node, h), h) == Whole(Top, f.Around(Flat(z.node, h), h), h + 1);
    assert Before(In(f, Top), Rank(z.node, z.pos, h), h) == Before(z.ctx, f.Before(Rank(z.node, z.pos, h), h), h + 1);
  }

  // ----- Insertion -------------------------------------------------------------------------------------------

  /** A key more in the hole is a key more in the tree, at its rank. */
  lemma {:induction false} WholeInsert<K>(ctx: Ctx<K>, a: seq<K>, x: seq<K>, b: seq<K>, h: nat)
    requires Framed(ctx)
    ensures Before(ctx, |a|, h) <= |Whole(ctx, a + b, h)|
    ensures var w, r := Whole(ctx, a + b, h), Before(ctx, |a|, h);
            Whole(ctx, a + x + b, h) == w[..r] + x + w[r..]
  {
    hide Flat, Weave, Trail;
    match ctx
    case Top =>
      assert (a + b)[..|a|] == a && (a + b)[|a|..] == b;
    case In(f, up) =>
      var W, T := Weave(f.lkids, f.lkeys, h), Trail(f.rkeys, f.rkids, h);
      WholeInsert(up, W + a, x, b + T, h + 1);
      assert W + (a + b) + T == W + a + (b + T);
      assert W + (a + x + b) + T == W + a + x + (b + T);
  }

  /** The key an iterator refers to is the one at its rank. */
  lemma KeyThere<K>(z: Place<K>, N: nat, h: nat)
    requires z.Ok(N, h) && Framed(z.ctx) && z.pos < |z.node.keys|
    ensures z.KeyRankOf(h) < |z.InOrder(h)| && z.InOrder(h)[z.KeyRankOf(h)] == z.node.keys[z.pos]
  {
    hide Flat, Weave, Whole, Before, KeyRank;
    KeyAt(z.node, z.pos, h);
    var s, r := Flat(z.node, h), KeyRank(z.node, z.pos, h);
    WholeInsert(z.ctx, s[..r], [s[r]], s[r + 1..], h);
    assert s[..r] + [s[r]] + s[r + 1..] == s;
  }

  // ----- From node to node -----------------------------------------------------------------------------------

  /** Behind the last key of a subtree, and at the key that follows the subtree in its parent: the same
      iterator as far as the keys are concerned. */
  lemma EndOfChild<K>(z: Place<K>, parent: Place<K>, N: nat, h: nat)
    requires z.Ok(N, h) && z.ctx.In? && z.pos == |z.node.keys|
    requires parent == Place(z.ctx.up, z.ctx.f.Plug(z.node), |z.ctx.f.lkids|)
    ensures parent.Ok(N, h + 1) && Framed(z.ctx) && Framed(parent.ctx)
    ensures parent.InOrder(h + 1) == z.InOrder(h) && parent.KeyRankOf(h + 1) == z.KeyRankOf(h)
  {
    hide Flat, Weave, Rank, Whole, Before;
    var f := z.ctx.f;
    OkFramed(z.ctx, N, h);
    PlugOk(f, z.node, N, h);
    PlugFlat(f, z.node, h);
    KeyRankEnd(z.node, h);
    UpOne(z, h);
    UpKey(z, h);
    assert parent.node.kids[|f.lkids|] == z.node;
  }

  lemma UpKey<K>(z: Place<K>, h: nat)
    requires z.ctx.In? && Framed(z.ctx) && Shaped(z.node, h == 0) && z.pos <= |z.node.keys|
    ensures var rank := |Weave(z.ctx.f.lkids, z.ctx.f.lkeys, h)| + KeyRank(z.node, z.pos, h);
            z.KeyRankOf(h) == Before(z.ctx.up, rank, h + 1)
  {
    hide KeyRank;
  }

  function LastOf<K>(z: Place<K>): Place<K>
    requires z.pos <= |z.node.keys| && |z.node.kids| == |z.node.keys| + 1
  {
    var child := z.node.kids[z.pos];
    Place(In(Open(z.node, z.pos), z.ctx), child, |child.keys|)
  }

  lemma IntoChild<K>(z: Place<K>, N: nat, h: nat)
    requires z.Ok(N, h + 1)
    ensures var c := LastOf(z);
            && c.Ok(N, h) && Framed(c.ctx) && Framed(z.ctx)
            && c.InOrder(h) == z.InOrder(h + 1) && c.KeyRankOf(h) == z.KeyRankOf(h + 1)
  {
    hide Flat, Weave, Rank, Whole, Before, KeyRank;
    OpenPlug(z.node, z.pos, N, h);
    EndOfChild(LastOf(z), z, N, h);
  }

  lemma ChildFilled<K>(z: Place<K>, N: nat, h: nat)
    requires z.Ok(N, h + 1) && AllFilled(z, h + 1)
    ensures AllFilled(LastOf(z), h)
  {
    hide KidsFilled, Beside;
    OpenFilled(z.node, z.pos, h);
    KidsOfFilled(z.node.kids[z.pos], h);
  }

  lemma UpFilled<K>(z: Place<K>, h: nat)
    requires AllFilled(z, h) && z.ctx.In?
    ensures AllFilled(Place(z.ctx.up, z.ctx.f.Plug(z.node), |z.ctx.f.lkids|), h + 1)
  {
    ParentFilled(z, h);
  }

  /** Behind the key that precedes an internal position, which is in a leaf. */
  method ToLeaf<K>(N: nat, z: Place<K>, ghost h: nat) returns (z': Place<K>)
    requires z.Ok(N, h) && Framed(z.ctx) && z.node.kids != []
    ensures z'.Ok(N, 0) && Framed(z'.ctx) && z'.ctx.In?
    ensures z'.InOrder(0) == z.InOrder(h) && z'.RankOf(0) == z.KeyRankOf(h)
    ensures AllFilled(z, h) ==> AllFilled(z', 0)
  {
    hide Flat, Weave, Whole, Before, AllFilled;
    ghost var g: nat := h - 1;
    IntoChild(z, N, g);
    if AllFilled(z, h) { ChildFilled(z, N, g); }
    z' := LastOf(z);
    while z'.node.kids != []
      invariant z'.Ok(N, g) && Framed(z'.ctx) && z'.ctx.In? && z'.pos == |z'.node.keys|
      invariant z'.InOrder(g) == z.InOrder(h) && z'.KeyRankOf(g) == z.KeyRankOf(h)
      invariant AllFilled(z, h) ==> AllFilled(z', g)
      decreases g
    {
      IntoChild(z', N, g - 1);
      if AllFilled(z', g) { ChildFilled(z', N, g - 1); }
      z', g := LastOf(z'), g - 1;
    }
  }

  /** From behind the last key of a leaf to the next key, further up; at the end of the tree, nowhere. */
  method NextKey<K>(N: nat, z: Place<K>) returns (z': Place<K>, ghost h: nat)
    requires z.Ok(N, 0) && Framed(z.ctx)
    ensures z'.Ok(N, h) && Framed(z'.ctx)
    ensures z'.InOrder(h) == z.InOrder(0) && z'.KeyRankOf(h) == z.RankOf(0)
    ensures z'.pos == |z'.node.keys| ==> z' == z && h == 0 && z.RankOf(0) == |z.InOrder(0)|
    ensures AllFilled(z, 0) ==> AllFilled(z', h)
  {
    hide Flat, Weave, Whole, Before, AllFilled;
    z', h := z, 0;
    while z'.pos == |z'.node.keys| && z'.ctx.In?
      invariant z'.Ok(N, h) && Framed(z'.ctx)
      invariant z'.InOrder(h) == z.InOrder(0) && z'.KeyRankOf(h) == z.RankOf(0)
      invariant AllFilled(z, 0) ==> AllFilled(z', h)
      decreases z'.ctx
    {
      var parent := Place(z'.ctx.up, z'.ctx.f.Plug(z'.node), |z'.ctx.f.lkids|);
      if AllFilled(z', h) { UpFilled(z', h); }
      EndOfChild(z', parent, N, h);
      z', h := parent, h + 1;
    }
    if z'.pos == |z'.node.keys| {
      EndOfTree(z', h);
      z', h := z, 0;
    }
  }

  lemma EndOfTree<K>(z: Place<K>, h: nat)
    requires z.ctx.Top? && Shaped(z.node, h == 0) && z.pos == |z.node.keys|
    ensures Framed(z.ctx) && z.KeyRankOf(h) == |z.InOrder(h)|
  {
    KeyRankEnd(z.node, h);
  }

  /** internal_emplace: the key goes in at the iterator's rank, in a leaf, and the place is then at it.
      `maxCount` is what the leaf has room for: less than others have only in a tree that is one leaf. */
  method InternalEmplace<K>(N: nat, z: Place<K>, maxCount: nat, key: K, ghost h: nat)
    returns (z': Place<K>, maxCount': nat)
    requires N >= 3 && z.Ok(N, h) && Framed(z.ctx) && 1 <= maxCount <= N
    requires maxCount < N ==> z.ctx.Top? && z.node.kids == [] && |z.node.keys| <= maxCount
    ensures z'.Ok(N, 0) && Framed(z'.ctx) && |z'.node.keys| <= maxCount' <= N
    ensures z.KeyRankOf(h) <= |z.InOrder(h)|
    ensures var w, r := z.InOrder(h), z.KeyRankOf(h); z'.InOrder(0) == w[..r] + [key] + w[r..] && z'.RankOf(0) == r
    ensures z'.pos < |z'.node.keys| && z'.node.keys[z'.pos] == key
    ensures AllFilled(z, h) ==> AllFilled(z', 0)
  {
    hide Whole, Before, CtxOk, Framed;
    var leaf := z;
    if z.node.kids != [] {
      leaf := ToLeaf(N, z, h);
    }
    z', maxCount' := EmplaceInLeaf(N, leaf, maxCount, key);
  }

  method EmplaceInLeaf<K>(N: nat, z: Place<K>, maxCount: nat, key: K) returns (z': Place<K>, maxCount': nat)
    requires N >= 3 && z.Ok(N, 0) && Framed(z.ctx) && 1 <= maxCount <= N
    requires maxCount < N ==> z.ctx.Top? && |z.node.keys| <= maxCount
    ensures z'.Ok(N, 0) && Framed(z'.ctx) && |z'.node.keys| <= maxCount' <= N
    ensures z.RankOf(0) <= |z.InOrder(0)|
    ensures var w, r := z.InOrder(0), z.RankOf(0); z'.InOrder(0) == w[..r] + [key] + w[r..] && z'.RankOf(0) == r
    ensures z'.pos < |z'.node.keys| && z'.node.keys[z'.pos] == key
    ensures AllFilled(z, 0) ==> AllFilled(z', 0)
  {
    hide Whole, Before, CtxOk, Framed;
    var here := z;
    maxCount' := maxCount;
    if |z.node.keys| == maxCount {
      if maxCount < N {
        // A root smaller than a full node only grows.
        maxCount' := if N <= 2 * maxCount then N else 2 * maxCount;
      } else {
        here := RebalanceOrSplit(N, z, 0);
      }
    }
    var keys, pos := here.node.keys, here.pos;
    WholeInsert(here.ctx, keys[..pos], [key], keys[pos..], 0);
    assert keys[..pos] + keys[pos..] == keys;
    z' := here.(node := Tree(keys[..pos] + [key] + keys[pos..], []));
  }

  // ----- Closing up after a removal ------------------------------------------------------------------------

  /** The joined node takes the place of the two siblings. */
  lemma MergeKeeps<K>(z: Place<K>, up: Ctx<K>, f: Frame<K>, p: Pair<K>, q: nat, N: nat, h: nat)
    requires At(z, up, f, p, q) && PairOk(up, f, p, N, h) && |p.left.keys| + 1 + |p.right.keys| <= N
    ensures SamePlace(z, Place(In(f, up), p.Joined(), q), N, h)
  {
    hide Flat, Weave, Rank, Whole, Before;
    var z' := Place(In(f, up), p.Joined(), q);
    JoinedOk(p, N, h);
    AtOk(z, up, f, p, q, N, h);
    OkFramed(z'.ctx, N, h);
    AtKeeps(z, up, f, p, q, h);
    UpOne(z', h);
  }

  /** A merge leaves no node empty but perhaps the parent. */
  lemma MergedLeftFilled<K>(z: Place<K>, p: Pair<K>, h: nat)
    requires z.ctx.In? && z.ctx.f.Shaped() && z.ctx.f.lkids != [] && NoneEmpty(z, h)
    requires p.left == z.ctx.f.lkids[|z.ctx.f.lkids| - 1] && p.right == z.node
    ensures Beside(WithoutLeft(z.ctx.f), h) && KidsFilled(p.Joined(), h) && CtxFilled(z.ctx.up, h + 1)
  {
    hide Filled, KidsFilled, Beside;
    BesideLeft(z.ctx.f, h);
    KidsOfFilled(p.left, h);
    JoinedFilled(p, h);
  }

  lemma MergedRightFilled<K>(z: Place<K>, p: Pair<K>, h: nat)
    requires z.ctx.In? && z.ctx.f.Shaped() && z.ctx.f.rkids != [] && NoneEmpty(z, h)
    requires p.right == z.ctx.f.rkids[0] && p.left == z.node
    ensures Beside(WithoutRight(z.ctx.f), h) && KidsFilled(p.Joined(), h) && CtxFilled(z.ctx.up, h + 1)
  {
    hide Filled, KidsFilled, Beside;
    BesideRight(z.ctx.f, h);
    KidsOfFilled(p.right, h);
    JoinedFilled(p, h);
  }

  /** The node and its left sibling, and the key between them, fit in one node. */
  ghost predicate FitsLeft<K>(z: Place<K>, N: nat) {
    && z.ctx.In? && z.ctx.f.lkids != []
    && 1 + |z.ctx.f.lkids[|z.ctx.f.lkids| - 1].keys| + |z.node.keys| <= N
  }

  ghost predicate FitsRight<K>(z: Place<K>, N: nat) {
    z.ctx.In? && z.ctx.f.rkids != [] && 1 + |z.node.keys| + |z.ctx.f.rkids[0].keys| <= N
  }

  ghost predicate HasSibling<K>(z: Place<K>) {
    z.ctx.In? && (z.ctx.f.lkids != [] || z.ctx.f.rkids != [])
  }

  /** try_merge_or_rebalance for the left sibling: a merge, if both fit in one node. */
  method MergeLeft<K>(N: nat, z: Place<K>, ghost h: nat) returns (done: bool, z': Place<K>)
    requires z.Ok(N, h) && z.ctx.In? && z.ctx.f.lkids != []
    ensures done ==> SamePlace(z, z', N, h) && z'.ctx.In? && z'.ctx.up == z.ctx.up
    ensures done && NoneEmpty(z, h) ==> NearlyFilled(z', h)
    ensures done <==> FitsLeft(z, N)
    ensures done ==> |z'.node.keys| == |z.ctx.f.lkids[|z.ctx.f.lkids| - 1].keys| + 1 + |z.node.keys|
  {
    hide Flat, Weave, Rank, Whole, Before, NoneEmpty, Filled, KidsFilled, Beside, CtxFilled;
    var f := z.ctx.f;
    var left := f.lkids[|f.lkids| - 1];
    if 1 + |left.keys| + |z.node.keys| > N {
      return false, z;
    }
    var f0, p := WithoutLeft(f), Pair(left, f.lkeys[|f.lkeys| - 1], z.node);
    MergeKeeps(z, z.ctx.up, f0, p, |left.keys| + 1 + z.pos, N, h);
    if NoneEmpty(z, h) { MergedLeftFilled(z, p, h); }
    return true, Place(In(f0, z.ctx.up), p.Joined(), z.pos + (1 + |left.keys|));
  }

  /** How many keys a node gives to its sibling with fewer: half of what it has more, and never all. */
  function Levelling(more: nat, fewer: nat): (n: nat)
    requires fewer + 2 <= more
    ensures 1 <= n < more && fewer + n <= more - n
  {
    var half := (more - fewer) / 2;
    Min(half, more - 1)
  }

  /** The right sibling: a merge, if both fit in one node; otherwise it may give some of its keys. */
  method MergeRightOrTake<K>(N: nat, z: Place<K>, ghost h: nat) returns (done: bool, merged: bool, z': Place<K>)
    requires z.Ok(N, h) && z.ctx.In? && z.ctx.f.rkids != [] && |z.node.keys| < N / 2
    ensures done ==> SamePlace(z, z', N, h) && z'.ctx.In? && z'.ctx.up == z.ctx.up
    ensures done && NoneEmpty(z, h) ==> NearlyFilled(z', h) && (!merged ==> NoneEmpty(z', h))
    ensures merged <==> FitsRight(z, N)
    ensures merged ==> done && |z'.node.keys| == |z.node.keys| + 1 + |z.ctx.f.rkids[0].keys|
    ensures done ==> |z'.node.keys| >= |z.node.keys|
    ensures z.node.keys == [] ==> done && |z'.node.keys| > 0
  {
    hide Flat, Weave, Rank, Whole, Before, NoneEmpty, Filled, KidsFilled, Beside, CtxFilled,
         Levelling, RightToLeft;
    var f, t := z.ctx.f, z.node;
    var right := f.rkids[0];
    var f0, p := WithoutRight(f), Pair(t, f.rkeys[0], right);
    if 1 + |t.keys| + |right.keys| <= N {
      MergeKeeps(z, z.ctx.up, f0, p, z.pos, N, h);
      if NoneEmpty(z, h) { MergedRightFilled(z, p, h); }
      return true, true, Place(In(f0, z.ctx.up), p.Joined(), z.pos);
    }
    if |right.keys| > N / 2 && (t.keys == [] || z.pos > 0) {
      var toMove := Levelling(|right.keys|, |t.keys|);
      JoinedOk(p, N, h);
      var p' := RightToLeft(p, toMove);
      RightToLeftKeeps(p, toMove, h == 0);
      PartsOk(p', p.Joined(), N, h);
      z' := Place(In(FocusLeft(f0, p'), z.ctx.up), p'.left, z.pos);
      SameJoined(z, z', z.ctx.up, f0, p, p', z.pos, N, h);
      if NoneEmpty(z, h) {
        MovedRightFilled(z, z', p, p', z.pos, h);
        NearlyItself(z', h);
      }
      return true, false, z';
    }
    return false, false, z;
  }

  /** The left sibling may give some of its keys. */
  method TakeLeft<K>(N: nat, z: Place<K>, ghost h: nat) returns (done: bool, z': Place<K>)
    requires z.Ok(N, h) && z.ctx.In? && z.ctx.f.lkids != [] && |z.node.keys| < N / 2
    requires 1 + |z.ctx.f.lkids[|z.ctx.f.lkids| - 1].keys| + |z.node.keys| > N
    ensures done ==> SamePlace(z, z', N, h) && z'.ctx.In? && z'.ctx.up == z.ctx.up
    ensures done ==> |z'.node.keys| >= |z.node.keys|
    ensures z.node.keys == [] ==> done && |z'.node.keys| > 0
    ensures done && NoneEmpty(z, h) ==> NoneEmpty(z', h)
  {
    hide Flat, Weave, Rank, Whole, Before, NoneEmpty, Levelling, LeftToRight;
    var f, t := z.ctx.f, z.node;
    var left := f.lkids[|f.lkids| - 1];
    if |left.keys| > N / 2 && (t.keys == [] || z.pos < |t.keys|) {
      var toMove := Levelling(|left.keys|, |t.keys|);
      var f0, p := WithoutLeft(f), Pair(left, f.lkeys[|f.lkeys| - 1], t);
      JoinedOk(p, N, h);
      var p' := LeftToRight(p, toMove);
      LeftToRightKeeps(p, toMove, h == 0);
      PartsOk(p', p.Joined(), N, h);
      z' := Place(In(FocusRight(f0, p'), z.ctx.up), p'.right, z.pos + toMove);
      SameJoined(z, z', z.ctx.up, f0, p, p', |left.keys| + 1 + z.pos, N, h);
      if NoneEmpty(z, h) { MovedLeftFilled(z, z', p, p', |left.keys| + 1 + z.pos, h); }
      return true, z';
    }
    return false, z;
  }

  /** try_merge_or_rebalance: merges exactly if there is a sibling that fits, with the left one if that
      does, and never leaves a node without keys that has a sibling. */
  method TryMergeOrRebalance<K>(N: nat, z: Place<K>, ghost h: nat) returns (merged: bool, z': Place<K>)
    requires z.Ok(N, h) && z.ctx.In? && |z.node.keys| < N / 2
    ensures SamePlace(z, z', N, h) && z'.ctx.In? && z'.ctx.up == z.ctx.up
    ensures merged <==> FitsLeft(z, N) || FitsRight(z, N)
    ensures FitsLeft(z, N) ==> |z'.node.keys| == |z.ctx.f.lkids[|z.ctx.f.lkids| - 1].keys| + 1 + |z.node.keys|
    ensures !FitsLeft(z, N) && FitsRight(z, N) ==> |z'.node.keys| == |z.node.keys| + 1 + |z.ctx.f.rkids[0].keys|
    ensures HasSibling(z) ==> |z'.node.keys| > 0
    ensures NoneEmpty(z, h) ==> NearlyFilled(z', h) && (!merged ==> NoneEmpty(z', h))
  {
    hide Flat, Weave, Rank, Whole, Before, NodeOk, NoneEmpty, NearlyFilled;
    if NoneEmpty(z, h) { NearlyItself(z, h); }
    var f, done := z.ctx.f, false;
    OkFramed(z.ctx, N, h);
    FrameShaped(z, N, h);
    z' := z;
    if f.lkids != [] {
      done, z' := MergeLeft(N, z, h);
      if done {
        return true, z';
      }
    }
    if f.rkids != [] {
      done, merged, z' := MergeRightOrTake(N, z, h);
      if done {
        return;
      }
    }
    if f.lkids != [] {
      done, z' := TakeLeft(N, z, h);
      if done {
        if NoneEmpty(z', h) { NearlyItself(z', h); }
        return false, z';
      }
    }
    return false, z;
  }

  lemma FrameShaped<K>(z: Place<K>, N: nat, h: nat)
    requires z.Ok(N, h) && z.ctx.In?
    ensures z.ctx.f.Shaped() && Shaped(z.node, h == 0) && z.pos <= |z.node.keys|
  {}

  /** The loop of rebalance_after_delete: merges, from the node up for as long as they leave too little;
      a root left without keys gives way to its only subtree. */
  method MergeUp<K>(N: nat, z: Place<K>, ghost h: nat) returns (z': Place<K>)
    requires z.Ok(N, h)
    ensures SamePlace(z, z', N, h)
    ensures HasSibling(z) && N >= 2 ==> |z'.node.keys| > 0
    ensures N >= 2 && NoneEmpty(z, h) && (z.ctx.In? || h == 0 || z.node.keys != []) ==>
              AllFilled(z', h) && (z.ctx.In? ==> z'.node.keys != [])
    decreases z.ctx
  {
    hide Flat, Weave, Rank, Whole, Before, Filled, KidsFilled, Beside;
    OkFramed(z.ctx, N, h);
    if z.ctx.Top? || |z.node.keys| >= N / 2 {
      return z;
    }
    if NoneEmpty(z, h) { SiblingThere(z, N, h); }
    var merged, here := TryMergeOrRebalance(N, z, h);
    if !merged {
      return here;
    }
    var f, up := here.ctx.f, here.ctx.up;
    var parent := Place(up, f.Plug(here.node), |f.lkids|);
    if up.Top? {
      if parent.node.keys != [] {
        return here;
      }
      z' := Place(Top, here.node, here.pos);
      NewRoot(z', N, h);
      return;
    }
    PlugOk(f, here.node, N, h);
    if NoneEmpty(z, h) { ParentFilled(here, h); }
    var parent' := MergeUp(N, parent, h + 1);
    z' := Place(In(Open(parent'.node, parent'.pos), parent'.ctx), here.node, here.pos);
    Within(here, parent, parent', z', N, h);
    if N >= 2 && NoneEmpty(z, h) { BelowFilled(here, parent', h); }
  }

  /** A parent that has keys has other children. */
  lemma SiblingThere<K>(z: Place<K>, N: nat, h: nat)
    requires NoneEmpty(z, h) && z.ctx.In? && z.Ok(N, h)
    ensures HasSibling(z)
  {}

  /** rebalance_after_delete: the iterator that is handed back refers to the key that followed what was
      removed, in whatever node that is now, or to the end of the tree. */
  method RebalanceAfterDelete<K>(N: nat, z: Place<K>) returns (z': Place<K>, ghost h: nat)
    requires z.Ok(N, 0) && Framed(z.ctx)
    ensures z'.Ok(N, h) && Framed(z'.ctx)
    ensures z'.InOrder(h) == z.InOrder(0) && z'.KeyRankOf(h) == z.RankOf(0)
    ensures N >= 2 && NoneEmpty(z, 0) ==> AllFilled(z', h)
    ensures z'.pos < |z'.node.keys| ==>
              z.RankOf(0) < |z.InOrder(0)| && z'.node.keys[z'.pos] == z.InOrder(0)[z.RankOf(0)]
    ensures z'.pos == |z'.node.keys| ==> z.RankOf(0) == |z.InOrder(0)|
  {
    hide Flat, Weave, Rank, Whole, Before, KeyRank;
    var here := MergeUp(N, z, 0);
    z', h := NextKey(N, here);
    if z'.pos < |z'.node.keys| { KeyThere(z', N, h); }
  }

  /** erase_from_leaf_node: the keys from the place on are gone, as many as asked for, and the iterator
      refers to the one after them. */
  method EraseFromLeaf<K>(N: nat, z: Place<K>, toErase: nat) returns (z': Place<K>, ghost h: nat)
    requires N >= 3 && z.Ok(N, 0) && Framed(z.ctx) && z.pos + toErase <= |z.node.keys|
    ensures z'.Ok(N, h) && Framed(z'.ctx)
    ensures AllFilled(z, 0) ==> AllFilled(z', h)
    ensures z.RankOf(0) + toErase <= |z.InOrder(0)|
    ensures var w, r := z.InOrder(0), z.RankOf(0);
            && w[r..r + toErase] == z.node.keys[z.pos..z.pos + toErase]
            && z'.InOrder(h) == w[..r] + w[r + toErase..] && z'.KeyRankOf(h) == r
            && (z'.pos < |z'.node.keys| ==> r + toErase < |w| && z'.node.keys[z'.pos] == w[r + toErase])
            && (z'.pos == |z'.node.keys| ==> r + toErase == |w|)
  {
    hide Whole, Before, CtxOk, Framed, KeyRank;
    var keys, pos := z.node.keys, z.pos;
    var here := z.(node := Tree(keys[..pos] + keys[pos + toErase..], []));
    WholeInsert(z.ctx, keys[..pos], keys[pos..pos + toErase], keys[pos + toErase..], 0);
    assert keys[..pos] + keys[pos..pos + toErase] + keys[pos + toErase..] == keys;
    z', h := RebalanceAfterDelete(N, here);
  }
}
