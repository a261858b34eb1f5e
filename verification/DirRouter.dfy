/** The router that spreads new blocks over cache directories by smooth weighted round robin. */
module DirRouter {
  import opened Common

  datatype DirWeight = DirWeight(weight: int, cur: int, enabled: bool)

  type Dirs = seq<DirWeight>

  // ----- One pick --------------------------------------------------------------------------------------

  /** Every enabled directory has gained its own weight. */
  function Bumped(ds: Dirs): (r: Dirs)
    ensures |r| == |ds|
    ensures forall i :: 0 <= i < |ds| ==> r[i] == Bump(ds[i])
  {
    seq(|ds|, i requires 0 <= i < |ds| => Bump(ds[i]))
  }

  function Bump(d: DirWeight): DirWeight {
    if d.enabled then d.(cur := d.cur + d.weight) else d
  }

  /** The weights of the enabled directories. */
  function Total(ds: Dirs): int {
    if ds == [] then 0 else Total(ds[..|ds| - 1]) + (if ds[|ds| - 1].enabled then ds[|ds| - 1].weight else 0)
  }

  /** The enabled directory with the most; of several, the first. */
  ghost predicate IsBest(ds: Dirs, i: int) {
    && 0 <= i < |ds| && ds[i].enabled
    && forall j :: 0 <= j < |ds| && ds[j].enabled ==> ds[j].cur <= ds[i].cur && (j < i ==> ds[j].cur < ds[i].cur)
  }

  ghost predicate NoneEnabled(ds: Dirs) {
    forall j :: 0 <= j < |ds| ==> !ds[j].enabled
  }

  /** A pick: the best after the bump pays what all of them gained. */
  ghost predicate Pick(ds: Dirs, i: int, ds': Dirs) {
    var b := Bumped(ds);
    IsBest(b, i) && ds' == b[i := b[i].(cur := b[i].cur - Total(ds))]
  }

  /** What can happen to the router. */
  datatype Event = Picked(i: nat) | Full | Disabled(i: nat) | Gained(i: nat, weight: int) | Joined(quota: nat)

  ghost predicate Next(ds: Dirs, e: Event, ds': Dirs) {
    match e
    case Picked(i) => Pick(ds, i, ds')
    case Full => NoneEnabled(ds) && ds' == ds
    case Disabled(i) => i < |ds| && ds' == ds[i := ds[i].(enabled := false)]
    case Gained(i, w) => i < |ds| && ds' == ds[i := ds[i].(cur := ds[i].cur + w, enabled := true)]
    case Joined(quota) => ds' == ds + [DirWeight(quota, quota, true)]
  }

  lemma BestUnique(ds: Dirs, i: int, j: int)
    requires IsBest(ds, i) && IsBest(ds, j)
    ensures i == j
  {}

  class CacheDirRouter {
    var dirs: Dirs

    constructor ()
      ensures dirs == []
    {
      dirs := [];
    }

    method AddDir(quota: nat)
      modifies this
      ensures Next(old(dirs), Joined(quota), dirs)
      ensures |dirs| == |old(dirs)| + 1 && dirs[..|old(dirs)|] == old(dirs)
      ensures var d := dirs[|old(dirs)|]; d.weight == quota && d.cur == quota && d.enabled
    {
      dirs := dirs + [DirWeight(quota, quota, true)];
    }

    method DisableDir(index: nat)
      requires index < |dirs|
      modifies this
      ensures Next(old(dirs), Disabled(index), dirs)
      ensures |dirs| == |old(dirs)| && !dirs[index].enabled
      ensures dirs[index].weight == old(dirs)[index].weight && dirs[index].cur == old(dirs)[index].cur
      ensures forall i :: 0 <= i < |dirs| && i != index ==> dirs[i] == old(dirs)[i]
    {
      dirs := dirs[index := dirs[index].(enabled := false)];
    }

    method AddDirWeight(index: nat, weight: int)
      requires index < |dirs|
      modifies this
      ensures Next(old(dirs), Gained(index, weight), dirs)
      ensures |dirs| == |old(dirs)| && dirs[index].enabled
      ensures dirs[index].weight == old(dirs)[index].weight && dirs[index].cur == old(dirs)[index].cur + weight
      ensures forall i :: 0 <= i < |dirs| && i != index ==> dirs[i] == old(dirs)[i]
    {
      dirs := dirs[index := dirs[index].(cur := dirs[index].cur + weight)];
      if !dirs[index].enabled {
        dirs := dirs[index := dirs[index].(enabled := true)];
      }
    }

    method NextDirIndex() returns (index: int)
      modifies this
      ensures index >= -1 && Next(old(dirs), if index == -1 then Full else Picked(index), dirs)
      ensures |dirs| == |old(dirs)| && (index == -1 ==> dirs == old(dirs))
      ensures index == -1 <==> forall j :: 0 <= j < |old(dirs)| ==> !old(dirs)[j].enabled
      ensures index >= 0 ==>
                && index < |dirs| && old(dirs)[index].enabled
                && forall j :: 0 <= j < |dirs| && old(dirs)[j].enabled ==>
                     var d, most := old(dirs)[j], old(dirs)[index].cur + old(dirs)[index].weight;
                     d.cur + d.weight <= most && (j < index ==> d.cur + d.weight < most)
      ensures forall j :: 0 <= j < |dirs| && index >= 0 ==>
                var d := old(dirs)[j];
                var gained, paid := if d.enabled then d.weight else 0, if j == index then Total(old(dirs)) else 0;
                dirs[j] == d.(cur := d.cur + gained - paid)
    {
      hide IsBest, NoneEnabled;
      index := -1;
      var total := 0;
      assert Leads(dirs[..0], -1) by { LeadsNone(); }
      for idx := 0 to |dirs|
        invariant |dirs| == |old(dirs)|
        invariant total == Total(old(dirs)[..idx])
        invariant forall j :: 0 <= j < |dirs| ==> dirs[j] == if j < idx then Bump(old(dirs)[j]) else old(dirs)[j]
        invariant -1 <= index < idx && Leads(dirs[..idx], index)
      {
        assert old(dirs)[..idx + 1][..idx] == old(dirs)[..idx];
        if !dirs[idx].enabled {
          LeadsStill(dirs[..idx], dirs[idx], index);
          assert dirs[..idx + 1] == dirs[..idx] + [dirs[idx]];
          continue;
        }
        ghost var before := dirs[..idx];
        dirs := dirs[idx := dirs[idx].(cur := dirs[idx].cur + dirs[idx].weight)];
        total := total + dirs[idx].weight;
        LeadsOn(before, dirs[idx], index);
        assert dirs[..idx + 1] == before + [dirs[idx]];
        if index == -1 || dirs[index].cur < dirs[idx].cur {
          index := idx;
        }
      }
      assert old(dirs)[..|dirs|] == old(dirs) && dirs[..|dirs|] == dirs;
      if index == -1 {
        NobodyGained(old(dirs), dirs);
      } else {
        assert dirs == Bumped(old(dirs));
        dirs := dirs[index := dirs[index].(cur := dirs[index].cur - total)];
      }
      PickMeans(old(dirs), index);
    }
  }

  lemma PickMeans(ds: Dirs, index: int)
    requires if index == -1 then NoneEnabled(ds) else IsBest(Bumped(ds), index)
    ensures index == -1 <==> forall j :: 0 <= j < |ds| ==> !ds[j].enabled
    ensures index != -1 ==>
              && 0 <= index < |ds| && ds[index].enabled
              && forall j :: 0 <= j < |ds| && ds[j].enabled ==>
                   var most := ds[index].cur + ds[index].weight;
                   ds[j].cur + ds[j].weight <= most && (j < index ==> ds[j].cur + ds[j].weight < most)
  {
    if index != -1 {
      assert ds[index].enabled;
      forall j | 0 <= j < |ds| && ds[j].enabled
        ensures Bumped(ds)[j].cur == ds[j].cur + ds[j].weight && Bumped(ds)[j].enabled
      {}
    }
  }

  /** The best of those seen so far, or none of them is enabled. */
  ghost predicate Leads(ds: Dirs, index: int) {
    if index == -1 then NoneEnabled(ds) else IsBest(ds, index)
  }

  lemma NobodyGained(ds: Dirs, ds': Dirs)
    requires |ds'| == |ds| && NoneEnabled(ds') && forall j :: 0 <= j < |ds| ==> ds'[j] == Bump(ds[j])
    ensures NoneEnabled(ds) && ds' == ds
  {
    forall j | 0 <= j < |ds|
      ensures !ds[j].enabled && ds'[j] == ds[j]
    {
      assert !ds'[j].enabled;
    }
  }

  lemma LeadsNone()
    ensures Leads([], -1)
  {}

  lemma LeadsStill(ds: Dirs, d: DirWeight, index: int)
    requires Leads(ds, index) && !d.enabled
    ensures Leads(ds + [d], index)
  {}

  lemma LeadsOn(ds: Dirs, d: DirWeight, index: int)
    requires Leads(ds, index) && d.enabled && -1 <= index < |ds|
    ensures Leads(ds + [d], if index == -1 || ds[index].cur < d.cur then |ds| else index)
  {}

  // ----- Conservation ------------------------------------------------------------------------------------

  function SumCur(ds: Dirs): int {
    if ds == [] then 0 else SumCur(ds[..|ds| - 1]) + ds[|ds| - 1].cur
  }

  function SumWeight(ds: Dirs): int {
    if ds == [] then 0 else SumWeight(ds[..|ds| - 1]) + ds[|ds| - 1].weight
  }

  lemma {:induction false} SumCurUpdate(ds: Dirs, i: nat, d: DirWeight)
    requires i < |ds|
    ensures SumCur(ds[i := d]) == SumCur(ds) - ds[i].cur + d.cur
  {
    var n := |ds| - 1;
    if i < n {
      SumCurUpdate(ds[..n], i, d);
      assert ds[i := d][..n] == ds[..n][i := d];
    } else {
      assert ds[i := d][..n] == ds[..n];
    }
  }

  lemma {:induction false} SumWeightSame(ds: Dirs, ds': Dirs)
    requires |ds| == |ds'| && forall i :: 0 <= i < |ds| ==> ds[i].weight == ds'[i].weight
    ensures SumWeight(ds) == SumWeight(ds')
  {
    if ds != [] { SumWeightSame(ds[..|ds| - 1], ds'[..|ds| - 1]); }
  }

  lemma {:induction false} BumpSum(ds: Dirs)
    ensures SumCur(Bumped(ds)) == SumCur(ds) + Total(ds)
  {
    if ds != [] {
      BumpSum(ds[..|ds| - 1]);
      assert Bumped(ds)[..|ds| - 1] == Bumped(ds[..|ds| - 1]);
    }
  }

  ghost predicate Run(states: seq<Dirs>, events: seq<Event>) {
    && |states| == |events| + 1
    && forall t :: 0 <= t < |events| ==> Next(states[t], events[t], states[t + 1])
  }

  lemma RunExtends(states: seq<Dirs>, events: seq<Event>, e: Event, ds: Dirs)
    requires Run(states, events) && Next(states[|events|], e, ds)
    ensures Run(states + [ds], events + [e])
  {
    var states', events' := states + [ds], events + [e];
    forall t | 0 <= t < |events'|
      ensures Next(states'[t], events'[t], states'[t + 1])
    {
      if t < |events| { assert Next(states[t], events[t], states[t + 1]); }
    }
  }

  /** Proposals that came to nothing, each followed by the disabling of the directory proposed. */
  function Refusals(refused: seq<nat>): seq<Event> {
    if refused == [] then []
    else Refusals(refused[..|refused| - 1]) + [Picked(refused[|refused| - 1]), Disabled(refused[|refused| - 1])]
  }

  lemma RefusalExtends(states: seq<Dirs>, refused: seq<nat>, i: nat, ds: Dirs, ds': Dirs)
    requires Run(states, Refusals(refused)) && Next(states[|states| - 1], Picked(i), ds) && Next(ds, Disabled(i), ds')
    ensures Run(states + [ds, ds'], Refusals(refused + [i]))
  {
    RunExtends(states, Refusals(refused), Picked(i), ds);
    RunExtends(states + [ds], Refusals(refused) + [Picked(i)], Disabled(i), ds');
    assert (refused + [i])[..|refused|] == refused;
    assert Refusals(refused) + [Picked(i)] + [Disabled(i)] == Refusals(refused + [i]);
    assert states + [ds] + [ds'] == states + [ds, ds'];
  }

  function AllGained(events: seq<Event>): int {
    if events == [] then 0
    else AllGained(events[..|events| - 1]) + (var e := events[|events| - 1]; if e.Gained? then e.weight else 0)
  }

  lemma StepConserves(ds: Dirs, e: Event, ds': Dirs)
    requires Next(ds, e, ds')
    ensures SumCur(ds') - SumWeight(ds') == SumCur(ds) - SumWeight(ds) + if e.Gained? then e.weight else 0
  {
    match e
    case Picked(i) =>
      var b := Bumped(ds);
      BumpSum(ds);
      SumCurUpdate(b, i, ds'[i]);
      SumWeightSame(ds, ds');
    case Full =>
    case Disabled(i) =>
      SumCurUpdate(ds, i, ds'[i]);
      SumWeightSame(ds, ds');
    case Gained(i, w) =>
      SumCurUpdate(ds, i, ds'[i]);
      SumWeightSame(ds, ds');
    case Joined(quota) =>
      assert ds'[..|ds|] == ds;
  }

  /** In every run from no directories at all, however picks, refusals and gains interleave, the current
      weights add up to the weights and all that was gained. */
  lemma {:induction false} RunConserves(states: seq<Dirs>, events: seq<Event>)
    requires Run(states, events) && states[0] == []
    ensures SumCur(states[|events|]) == SumWeight(states[|events|]) + AllGained(events)
  {
    if events != [] {
      var n := |events| - 1;
      RunConserves(states[..n + 1], events[..n]);
      assert states[..n + 1][|events[..n]|] == states[n];
      StepConserves(states[n], events[n], states[n + 1]);
    }
  }

  // ----- Rounds over a fixed set of enabled directories ---------------------------------------------------

  /** The state after add_dir: all enabled, each starting at its own weight. */
  ghost predicate Start(ds: Dirs) {
    && ds != [] && SumWeight(ds) > 0
    && forall i :: 0 <= i < |ds| ==> ds[i].enabled && 0 <= ds[i].weight == ds[i].cur
  }

  ghost predicate Rounds(states: seq<Dirs>, picks: seq<nat>) {
    && |states| == |picks| + 1 && Start(states[0])
    && forall t :: 0 <= t < |picks| ==> Pick(states[t], picks[t], states[t + 1])
  }

  /** The weights decide every pick: two runs of as many picks from the same start are the same. */
  lemma {:induction false} RoundsDetermined(states: seq<Dirs>, picks: seq<nat>, states': seq<Dirs>, picks': seq<nat>)
    requires Rounds(states, picks) && Rounds(states', picks')
    requires states[0] == states'[0] && |picks| == |picks'|
    ensures states == states' && picks == picks'
  {
    if picks == [] {
      assert states == [states[0]] == states';
    } else {
      var n := |picks| - 1;
      RoundsDetermined(states[..n + 1], picks[..n], states'[..n + 1], picks'[..n]);
      assert states[n] == states[..n + 1][n] == states'[..n + 1][n] == states'[n];
      assert Pick(states[n], picks[n], states[n + 1]) && Pick(states'[n], picks'[n], states'[n + 1]);
      BestUnique(Bumped(states[n]), picks[n], picks'[n]);
      assert states == states[..n + 1] + [states[n + 1]] && states' == states'[..n + 1] + [states'[n + 1]];
      assert picks == picks[..n] + [picks[n]] && picks' == picks'[..n] + [picks'[n]];
    }
  }

  function Count(picks: seq<nat>, d: int): nat {
    if picks == [] then 0 else Count(picks[..|picks| - 1], d) + (if picks[|picks| - 1] == d then 1 else 0)
  }

  /** Nothing but the current weights changes. */
  ghost predicate SameDirs(ds: Dirs, ds': Dirs) {
    |ds| == |ds'| && forall i :: 0 <= i < |ds| ==> ds'[i].weight == ds[i].weight && ds'[i].enabled == ds[i].enabled
  }

  lemma {:induction false} TotalIsAll(ds: Dirs)
    requires forall i :: 0 <= i < |ds| ==> ds[i].enabled
    ensures Total(ds) == SumWeight(ds)
  {
    if ds != [] { TotalIsAll(ds[..|ds| - 1]); }
  }

  lemma PickCur(ds: Dirs, p: nat, ds': Dirs, d: nat)
    requires Pick(ds, p, ds') && d < |ds| && forall i :: 0 <= i < |ds| ==> ds[i].enabled
    ensures SameDirs(ds, ds') && SumWeight(ds') == SumWeight(ds) && SumCur(ds') == SumCur(ds)
    ensures ds'[d].cur == ds[d].cur + ds[d].weight - if p == d then SumWeight(ds) else 0
  {
    TotalIsAll(ds);
    SumWeightSame(ds, ds');
    StepConserves(ds, Picked(p), ds');
  }

  lemma {:induction false} RoundsKeep(states: seq<Dirs>, picks: seq<nat>)
    requires Rounds(states, picks)
    ensures var ds := states[|picks|];
            SameDirs(states[0], ds) && SumWeight(ds) == SumWeight(states[0]) == SumCur(ds)
  {
    if picks == [] {
      SumCurIsWeight(states[0]);
    } else {
      var n := |picks| - 1;
      RoundsKeep(states[..n + 1], picks[..n]);
      PickCur(states[n], picks[n], states[n + 1], 0);
    }
  }

  lemma CurStep(t: nat, w: int, W: int, c: int, hit: bool)
    ensures (1 + t) * w - W * c + w - (if hit then W else 0) == (2 + t) * w - W * (c + if hit then 1 else 0)
  {
    Distribute(W, c, 1);
    Distribute(w, 1 + t, 1);
  }

  /** After t picks, c of them of directory d, its current weight is (1 + t)·w − W·c. */
  lemma {:induction false} CurAfter(states: seq<Dirs>, picks: seq<nat>, d: nat)
    requires Rounds(states, picks) && d < |states[0]|
    ensures |states[|picks|]| == |states[0]|
    ensures states[|picks|][d].cur ==
            (1 + |picks|) * states[0][d].weight - SumWeight(states[0]) * Count(picks, d)
  {
    hide Pick;
    if picks != [] {
      var n := |picks| - 1;
      CurAfter(states[..n + 1], picks[..n], d);
      RoundsKeep(states[..n + 1], picks[..n]);
      PickCur(states[n], picks[n], states[n + 1], d);
      CurStep(n, states[0][d].weight, SumWeight(states[0]), Count(picks[..n], d), picks[n] == d);
    }
  }

  lemma {:induction false} SumCurIsWeight(ds: Dirs)
    requires forall i :: 0 <= i < |ds| ==> ds[i].cur == ds[i].weight
    ensures SumCur(ds) == SumWeight(ds)
  {
    if ds != [] { SumCurIsWeight(ds[..|ds| - 1]); }
  }

  // ----- Bounded lag -------------------------------------------------------------------------------------

  lemma {:induction false} SomePositive(ds: Dirs, bound: int)
    requires forall i :: 0 <= i < |ds| ==> ds[i].cur <= bound
    ensures bound <= 0 ==> SumCur(ds) <= 0
  {
    if ds != [] { SomePositive(ds[..|ds| - 1], bound); }
  }

  /** The one picked had something to spend: what all of them gained is more than nothing. */
  lemma PickPositive(ds: Dirs, p: nat, ds': Dirs)
    requires Pick(ds, p, ds') && SumCur(ds) == SumWeight(ds) > 0 && forall i :: 0 <= i < |ds| ==> ds[i].enabled
    ensures ds[p].cur + ds[p].weight > 0
  {
    BumpSum(ds);
    TotalIsAll(ds);
    SomePositive(Bumped(ds), Bumped(ds)[p].cur);
  }

  /** The others' current weights, each above −W, bound one from above. */
  lemma {:induction false} SumAbove(ds: Dirs, W: int)
    requires forall i :: 0 <= i < |ds| ==> ds[i].cur > -W
    ensures SumCur(ds) >= |ds| * (1 - W)
  {
    if ds != [] {
      SumAbove(ds[..|ds| - 1], W);
      Distribute(1 - W, |ds| - 1, 1);
    }
  }

  lemma OneFromAbove(ds: Dirs, W: int, d: nat)
    requires d < |ds| && SumCur(ds) == W && forall i :: 0 <= i < |ds| ==> ds[i].cur > -W
    ensures ds[d].cur <= W - (|ds| - 1) * (1 - W)
  {
    hide SumCur;
    var zero := ds[d].(cur := 1 - W);
    SumCurUpdate(ds, d, zero);
    SumAbove(ds[d := zero], W);
    Distribute(1 - W, |ds| - 1, 1);
  }

  /** With k directories, all enabled, no current weight ever falls to −W nor rises above kW; it is
      kW only where there is one directory. */
  lemma {:induction false} BoundedLag(states: seq<Dirs>, picks: seq<nat>, d: nat)
    requires Rounds(states, picks) && d < |states[0]|
    ensures |states[|picks|]| == |states[0]|
    ensures var W, k := SumWeight(states[0]), |states[0]|;
            && -W < states[|picks|][d].cur <= k * W
            && (states[|picks|][d].cur == k * W <==> k == 1)
  {
    hide Pick;
    RoundsKeep(states, picks);
    var ds, W, k := states[|picks|], SumWeight(states[0]), |states[0]|;
    forall i: nat | i < |ds|
      ensures ds[i].cur > -W
    {
      NeverBelow(states, picks, i);
    }
    OneFromAbove(ds, W, d);
    assert W - (k - 1) * (1 - W) == k * W - (k - 1);
    if k == 1 { OnlyOne(ds); }
  }

  lemma OnlyOne(ds: Dirs)
    requires |ds| == 1
    ensures SumCur(ds) == ds[0].cur
  {
    assert SumCur(ds[..0]) == 0;
  }

  lemma {:induction false} NeverBelow(states: seq<Dirs>, picks: seq<nat>, d: nat)
    requires Rounds(states, picks) && d < |states[0]|
    ensures |states[|picks|]| == |states[0]|
    ensures states[|picks|][d].cur > -SumWeight(states[0])
  {
    hide Pick;
    if picks != [] {
      var n := |picks| - 1;
      NeverBelow(states[..n + 1], picks[..n], d);
      RoundsKeep(states[..n + 1], picks[..n]);
      PickCur(states[n], picks[n], states[n + 1], d);
      PickPositive(states[n], picks[n], states[n + 1]);
    }
  }

  // ----- Fairness ------------------------------------------------------------------------------------------

  function Counts(picks: seq<nat>, k: nat): (r: seq<nat>)
    ensures |r| == k
    ensures forall d :: 0 <= d < k ==> r[d] == Count(picks, d)
  {
    seq(k, d requires 0 <= d < k => Count(picks, d))
  }

  function Sum(s: seq<int>): int {
    if s == [] then 0 else Sum(s[..|s| - 1]) + s[|s| - 1]
  }

  lemma {:induction false} SumUpdate(s: seq<int>, i: nat, x: int)
    requires i < |s|
    ensures Sum(s[i := x]) == Sum(s) - s[i] + x
  {
    var n := |s| - 1;
    if i < n {
      SumUpdate(s[..n], i, x);
      assert s[i := x][..n] == s[..n][i := x];
    } else {
      assert s[i := x][..n] == s[..n];
    }
  }

  /** Every pick is of one of the k directories. */
  lemma {:induction false} CountsSum(picks: seq<nat>, k: nat)
    requires forall t :: 0 <= t < |picks| ==> picks[t] < k
    ensures Sum(Counts(picks, k)) == |picks|
  {
    if picks == [] {
      NoCounts(k);
    } else {
      var n := |picks| - 1;
      CountsSum(picks[..n], k);
      SumUpdate(Counts(picks[..n], k), picks[n], Counts(picks[..n], k)[picks[n]] + 1);
      assert Counts(picks, k) == Counts(picks[..n], k)[picks[n] := Counts(picks[..n], k)[picks[n]] + 1];
    }
  }

  lemma {:induction false} NoCounts(k: nat)
    ensures Sum(Counts([], k)) == 0
  {
    if k > 0 {
      NoCounts(k - 1);
      assert Counts([], k)[..k - 1] == Counts([], k - 1);
    }
  }

  /** A sum that falls short of another falls short somewhere; one that does not, nowhere. */
  lemma {:induction false} ShortSomewhere(a: seq<int>, b: seq<int>) returns (e: nat)
    requires |a| == |b| && (forall i :: 0 <= i < |a| ==> a[i] <= b[i])
    ensures Sum(a) <= Sum(b)
    ensures Sum(a) < Sum(b) ==> e < |a| && 0 < b[e] - a[e] <= Sum(b) - Sum(a)
    ensures Sum(a) == Sum(b) ==> a == b
  {
    e := 0;
    if a != [] {
      var n := |a| - 1;
      e := ShortSomewhere(a[..n], b[..n]);
      if a[n] < b[n] { e := n; }
      assert a == a[..n] + [a[n]] && b == b[..n] + [b[n]];
    }
  }

  /** The weights are g times the shares. */
  ghost predicate Shares(ds: Dirs, g: nat, shares: seq<nat>) {
    && g > 0 && |shares| == |ds|
    && forall i :: 0 <= i < |ds| ==> ds[i].weight == g * shares[i]
  }

  lemma {:induction false} SharesSum(ds: Dirs, g: nat, shares: seq<nat>)
    requires Shares(ds, g, shares)
    ensures SumWeight(ds) == g * Sum(shares)
  {
    if ds != [] {
      var n := |ds| - 1;
      SharesSum(ds[..n], g, shares[..n]);
      Distribute(g, Sum(shares[..n]), shares[n]);
    }
  }

  lemma InShares(g: nat, V: nat, v: nat)
    ensures (g * V) * v == V * (g * v)
  {
    MulAssoc3(V, g, v);
  }

  /** The directory that has had its share is not picked before the round is over: only the last pick
      could be of it, and then another that is one short has more. */
  lemma NotOverdrawn(V: nat, t: nat, W: nat, w: nat, v: nat, w': nat, u: nat)
    requires t < V && w <= W && 0 < w' && 0 < u
    requires W * v == V * w && W * u == V * w'
    ensures (2 + t) * w - W * v > 0 ==> t == V - 1
    ensures t == V - 1 ==> (2 + t) * w' - W * (u - 1) > (2 + t) * w - W * v
  {
    Distribute(w, 2 + t, 0 - V);
    if t < V - 1 {
      MulMono(w, 2 + t - V, 0);
    } else {
      Distribute(W, u, -1);
      Distribute(w, V, 1);
      Distribute(w', V, 1);
    }
  }

  /** A directory's current weight after the bump. */
  lemma BumpAfter(states: seq<Dirs>, picks: seq<nat>, d: nat)
    requires Rounds(states, picks) && d < |states[0]|
    ensures var ds := states[|picks|];
            && |ds| == |states[0]| && ds[d].enabled
            && Bumped(ds)[d].cur == (2 + |picks|) * states[0][d].weight - SumWeight(states[0]) * Count(picks, d)
  {
    hide Pick;
    RoundsKeep(states, picks);
    CurAfter(states, picks, d);
    Distribute(states[0][d].weight, 1 + |picks|, 1);
  }

  /** Whoever has had its share before the last but one pick of a round has nothing to spend, and
      at the last pick another has more. */
  lemma ShareSpent(states: seq<Dirs>, picks: seq<nat>, g: nat, shares: seq<nat>, d: nat, e: nat, ds: Dirs, ds': Dirs)
    requires Rounds(states, picks) && Shares(states[0], g, shares) && |picks| < Sum(shares) && d < |shares| &&
          e < |shares|
    requires ds == states[|picks|] && Pick(ds, d, ds')
    requires 0 < shares[e] - Count(picks, e) <= Sum(shares) - |picks|
    ensures Count(picks, d) != shares[d]
  {
    hide Pick, Bumped, Shares, Sum, SumCur, Count, SumWeight, Rounds;
    ShareAfter(states, picks, g, shares, d);
    ShareAfter(states, picks, g, shares, e);
    BestOf(ds, d, ds', e);
    PickPositive(ds, d, ds');
    if Count(picks, d) == shares[d] {
      NotOverdrawn(Sum(shares), |picks|, SumWeight(states[0]), states[0][d].weight, shares[d], states[0][e].weight,
                   shares[e]);
    }
  }

  /** What a directory with a share has after the bump, and how its weight and its share compare. */
  lemma ShareAfter(states: seq<Dirs>, picks: seq<nat>, g: nat, shares: seq<nat>, d: nat)
    requires Rounds(states, picks) && Shares(states[0], g, shares) && d < |shares|
    ensures |states| == |picks| + 1 && |states[0]| == |shares|
    ensures var ds, V, W, w := states[|picks|], Sum(shares), SumWeight(states[0]), states[0][d].weight;
            && |ds| == |states[0]| && SumCur(ds) == SumWeight(ds) == W > 0 &&
                  (forall i :: 0 <= i < |ds| ==> ds[i].enabled)
            && Bumped(ds)[d].cur == (2 + |picks|) * w - W * Count(picks, d)
            && w <= W && (shares[d] > 0 ==> w > 0) && W * shares[d] == V * w
  {
    hide Bumped, Sum, SumCur, Count, SumWeight;
    StartShares(states, picks, g, shares, d);
    BumpAfter(states, picks, d);
    ShareBelowSum(shares, d);
    MulMono(g, shares[d], Sum(shares));
    if shares[d] > 0 { MulMono(g, 1, shares[d]); }
  }

  lemma BestOf(ds: Dirs, d: nat, ds': Dirs, e: nat)
    requires Pick(ds, d, ds') && e < |ds| && ds[e].enabled
    ensures d < |ds| && Bumped(ds)[e].cur <= Bumped(ds)[d].cur
    ensures ds[d].enabled ==> Bumped(ds)[d].cur == ds[d].cur + ds[d].weight
  {}

  /** The start's weights in shares, and what stays of the start. */
  lemma StartShares(states: seq<Dirs>, picks: seq<nat>, g: nat, shares: seq<nat>, d: nat)
    requires Rounds(states, picks) && Shares(states[0], g, shares) && d < |shares|
    ensures |states| > 0 && |states[0]| == |shares|
    ensures var ds, V, W, w := states[|picks|], Sum(shares), SumWeight(states[0]), states[0][d].weight;
            && |ds| == |states[0]| && SumCur(ds) == SumWeight(ds) == W == g * V && W > 0
            && w == g * shares[d] && W * shares[d] == V * w
    ensures forall i :: 0 <= i < |states[|picks|]| ==> states[|picks|][i].enabled
  {
    RoundsKeep(states, picks);
    SharesSum(states[0], g, shares);
    InShares(g, Sum(shares), shares[d]);
  }

  lemma {:induction false} ShareBelowSum(shares: seq<nat>, d: nat)
    requires d < |shares|
    ensures shares[d] <= Sum(shares)
  {
    SumAtLeast(shares[..|shares| - 1]);
    if d < |shares| - 1 { ShareBelowSum(shares[..|shares| - 1], d); }
  }

  lemma {:induction false} SumAtLeast(shares: seq<nat>)
    ensures Sum(shares) >= 0
  {
    if shares != [] { SumAtLeast(shares[..|shares| - 1]); }
  }

  lemma {:induction false} NoneOverShare(states: seq<Dirs>, picks: seq<nat>, g: nat, shares: seq<nat>, d: nat)
    requires Rounds(states, picks) && Shares(states[0], g, shares) && |picks| <= Sum(shares) && d < |shares|
    ensures Count(picks, d) <= shares[d]
  {
    if picks != [] {
      var n := |picks| - 1;
      var before := picks[..n];
      NoneOverShare(states[..n + 1], before, g, shares, d);
      if picks[n] == d && Count(before, d) == shares[d] {
        forall i: nat | i < |shares|
          ensures Counts(before, |shares|)[i] <= shares[i]
        {
          NoneOverShare(states[..n + 1], before, g, shares, i);
        }
        PickInRange(states, picks);
        CountsSum(before, |shares|);
        var e := ShortSomewhere(Counts(before, |shares|), shares);
        ShareSpent(states[..n + 1], before, g, shares, d, e, states[n], states[n + 1]);
      }
    }
  }

  lemma PickInRange(states: seq<Dirs>, picks: seq<nat>)
    requires Rounds(states, picks)
    ensures forall t :: 0 <= t < |picks| ==> picks[t] < |states[0]|
  {
    forall t | 0 <= t < |picks|
      ensures picks[t] < |states[0]|
    {
      assert Rounds(states[..t + 1], picks[..t]);
      RoundsKeep(states[..t + 1], picks[..t]);
      assert Pick(states[t], picks[t], states[t + 1]);
    }
  }

  /** Exact fairness: after as many picks as there are shares, every directory has been picked as often
      as it has shares, and all is as it was at the start. */
  lemma ExactlyFair(states: seq<Dirs>, picks: seq<nat>, g: nat, shares: seq<nat>)
    requires Rounds(states, picks) && Shares(states[0], g, shares) && |picks| == Sum(shares)
    ensures forall d :: 0 <= d < |shares| ==> Count(picks, d) == shares[d]
    ensures states[|picks|] == states[0]
  {
    hide Pick, Shares, Sum, Count;
    SharesUsedUp(states, picks, g, shares);
    RoundsKeep(states, picks);
    forall d: nat | d < |shares|
      ensures |states[|picks|]| == |states[0]| == |shares| && states[|picks|][d] == states[0][d]
    {
      BackAgain(states, picks, g, shares, d);
    }
    SharesShape(states[0], g, shares);
  }

  lemma SharesShape(ds: Dirs, g: nat, shares: seq<nat>)
    requires Shares(ds, g, shares)
    ensures |ds| == |shares|
  {}

  lemma SharesUsedUp(states: seq<Dirs>, picks: seq<nat>, g: nat, shares: seq<nat>)
    requires Rounds(states, picks) && Shares(states[0], g, shares) && |picks| == Sum(shares)
    ensures forall d :: 0 <= d < |shares| ==> Count(picks, d) == shares[d]
  {
    hide Pick;
    var k := |shares|;
    forall d: nat | d < k
      ensures Counts(picks, k)[d] <= shares[d]
    {
      NoneOverShare(states, picks, g, shares, d);
    }
    PickInRange(states, picks);
    CountsSum(picks, k);
    var e := ShortSomewhere(Counts(picks, k), shares);
    forall d: nat | d < k
      ensures Count(picks, d) == shares[d]
    {
      assert Counts(picks, k)[d] == shares[d];
    }
  }

  /** A directory that has had its share of a round is where it was. */
  lemma BackAgain(states: seq<Dirs>, picks: seq<nat>, g: nat, shares: seq<nat>, d: nat)
    requires Rounds(states, picks) && Shares(states[0], g, shares) && |picks| == Sum(shares)
    requires d < |shares| && Count(picks, d) == shares[d]
    ensures |states[|picks|]| == |states[0]| == |shares| && states[|picks|][d] == states[0][d]
  {
    hide Pick;
    RoundsKeep(states, picks);
    CurAfter(states, picks, d);
    SharesSum(states[0], g, shares);
    BackToStart(g, Sum(shares), shares[d]);
  }

  lemma BackToStart(g: nat, V: nat, v: nat)
    ensures (1 + V) * (g * v) - (g * V) * v == g * v
  {
    Distribute(g * v, 1, V);
    MulAssoc3(g, v, V);
    MulAssoc3(g, V, v);
  }

  lemma RoundsAfter(states: seq<Dirs>, picks: seq<nat>, n: nat)
    requires Rounds(states, picks) && n <= |picks| && states[n] == states[0]
    ensures Rounds(states[n..], picks[n..])
  {
    hide Pick;
    forall t | 0 <= t < |picks[n..]|
      ensures Pick(states[n..][t], picks[n..][t], states[n..][t + 1])
    {
      assert Pick(states[n + t], picks[n + t], states[n + t + 1]);
    }
  }

  /** And so on, round after round. */
  lemma {:induction false} FairForever(states: seq<Dirs>, picks: seq<nat>, g: nat, shares: seq<nat>, rounds: nat)
    requires Rounds(states, picks) && Shares(states[0], g, shares) && |picks| == rounds * Sum(shares)
    ensures forall d :: 0 <= d < |shares| ==> Count(picks, d) == rounds * shares[d]
    ensures states[|picks|] == states[0]
    decreases rounds
  {
    hide Pick, Rounds, Sum, Count, Shares, SumWeight;
    RoundsLength(states, picks);
    if rounds > 0 {
      var V := Sum(shares);
      SumAtLeast(shares);
      Distribute(V, rounds - 1, 1);
      var n := (rounds - 1) * V;
      RoundsBefore(states, picks, n);
      FairForever(states[..n + 1], picks[..n], g, shares, rounds - 1);
      RoundsAfter(states, picks, n);
      ExactlyFair(states[n..], picks[n..], g, shares);
      forall d: nat | d < |shares|
        ensures Count(picks, d) == rounds * shares[d]
      {
        CountSplit(picks, n, d);
        Distribute(shares[d], rounds - 1, 1);
      }
    } else {
      NoneCounted();
    }
  }

  lemma NoneCounted()
    ensures forall d :: Count([], d) == 0
  {}

  lemma RoundsLength(states: seq<Dirs>, picks: seq<nat>)
    requires Rounds(states, picks)
    ensures |states| == |picks| + 1
  {}

  lemma RoundsBefore(states: seq<Dirs>, picks: seq<nat>, n: nat)
    requires Rounds(states, picks) && n <= |picks|
    ensures Rounds(states[..n + 1], picks[..n]) && states[..n + 1][n] == states[n]
  {}

  lemma {:induction false} CountSplit(picks: seq<nat>, n: nat, d: nat)
    requires n <= |picks|
    ensures Count(picks, d) == Count(picks[..n], d) + Count(picks[n..], d)
  {
    if n < |picks| {
      var m := |picks| - 1;
      CountSplit(picks[..m], n, d);
      assert picks[..m][..n] == picks[..n] && picks[..m][n..] == picks[n..][..m - n];
    } else {
      assert picks[..n] == picks;
    }
  }
}
