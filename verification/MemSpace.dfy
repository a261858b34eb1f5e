/** The memory quota: what is used, what is set aside for the requests that were turned down, and what
    is still owed to them. */
module MemSpace {
  import opened Common

  /** `threshold` is the percentage of the quota's public part that may be used. */
  datatype State = State(threshold: nat, quota: nat, used: nat, privateQuota: nat, need: nat) {
    function UpperThreshold(): int {
      (quota - privateQuota) * threshold / 100
    }

    /** An urgent request may draw on what was set aside. */
    predicate Draws(size: nat, urgent: bool) {
      urgent && privateQuota >= size
    }

    predicate Fits(size: nat) {
      used + size < UpperThreshold()
    }

    function Inc(size: nat, urgent: bool): (r: (State, bool)) {
      if Draws(size, urgent) then (this.(used := used + size, privateQuota := privateQuota - size), true)
      else if Fits(size) then (this.(used := used + size), true)
      else (this.(need := need + size), false)
    }

    /** What is freed goes to those still owed first. */
    function Dec(size: nat): State
      requires size <= used
    {
      var owed := if need >= size then size else need;
      this.(used := used - size, privateQuota := privateQuota + owed, need := need - owed)
    }

    /** What is used and what is set aside stay within the quota. */
    ghost predicate Bounded() {
      threshold <= 100 && used + privateQuota <= quota
    }

    lemma ThresholdBelow()
      requires threshold <= 100 && privateQuota <= quota
      ensures UpperThreshold() <= quota - privateQuota
    {
      MulMono(quota - privateQuota, threshold, 100);
    }

    lemma FitsIff(size: nat)
      requires privateQuota <= quota
      ensures Fits(size) <==> 100 * (used + size + 1) <= threshold * (quota - privateQuota)
    {}

    lemma IncBounded(size: nat, urgent: bool)
      requires Bounded()
      ensures Inc(size, urgent).0.Bounded()
    {
      ThresholdBelow();
    }

    lemma DecBounded(size: nat)
      requires Bounded() && size <= used
      ensures Dec(size).Bounded()
    {}
  }

  class MemSpaceManager {
    var state: State
    ghost var live: multiset<nat>   // the sizes granted and not yet freed
    ghost var refused: nat          // the bytes of all requests turned down
    ghost var drawn: nat            // the bytes of all requests granted from what was set aside

    ghost predicate Valid()
      reads this
    {
      && state.Bounded() && state.used == Sum(live)
      && refused == state.need + state.privateQuota + drawn
    }

    constructor (threshold: nat)
      requires threshold <= 100
      ensures Valid() && state == State(threshold, 0, 0, 0, 0) && live == multiset{}
    {
      state := State(threshold, 0, 0, 0, 0);
      live, refused, drawn := multiset{}, 0, 0;
    }

    method AddCacheZone(size: nat)
      requires Valid()
      modifies this
      ensures Valid() && state == old(state).(quota := old(state).quota + size) && live == old(live)
    {
      state := state.(quota := state.quota + size);
    }

    /** A request that draws on what was set aside is granted; any other exactly if all that is granted
        then stays below the threshold's share of what is not set aside. */
    method IncMem(size: nat, urgent: bool) returns (granted: bool)
      requires Valid()
      modifies this
      ensures Valid() && (state, granted) == old(state).Inc(size, urgent)
      ensures var s, drawing := old(state), urgent && old(state).privateQuota >= size;
              && (drawing ==> granted)
              && (!drawing ==>
                    (granted <==> 100 * (Sum(old(live)) + size + 1) <= s.threshold * (s.quota - s.privateQuota)))
              && state.privateQuota == s.privateQuota - (if drawing then size else 0)
              && state.need == s.need + (if granted then 0 else size)
              && state.quota == s.quota && state.threshold == s.threshold
      ensures live == if granted then old(live) + multiset{size} else old(live)
      ensures refused == old(refused) + if granted then 0 else size
      ensures drawn == old(drawn) + if old(state).Draws(size, urgent) then size else 0
    {
      hide Sum;
      state.IncBounded(size, urgent);
      state.FitsIff(size);
      SumAdd(live, size);
      if urgent && state.privateQuota >= size {
        state := state.(privateQuota := state.privateQuota - size, used := state.used + size);
        live, drawn := live + multiset{size}, drawn + size;
        return true;
      }
      var publicQuota := state.quota - state.privateQuota;
      var upper := publicQuota * state.threshold / 100;
      if state.used + size < upper {
        state := state.(used := state.used + size);
        live := live + multiset{size};
        return true;
      }
      state := state.(need := state.need + size);
      refused := refused + size;
      return false;
    }

    method DecMem(size: nat)
      requires Valid() && size in live
      modifies this
      ensures Valid() && size <= old(state).used && state == old(state).Dec(size)
      ensures state.need == (if old(state).need >= size then old(state).need - size else 0)
      ensures state.privateQuota - old(state).privateQuota == old(state).need - state.need
      ensures state.quota == old(state).quota && state.threshold == old(state).threshold
      ensures live == old(live) - multiset{size} && refused == old(refused) && drawn == old(drawn)
    {
      hide Sum;
      SumAdd(live - multiset{size}, size);
      assert live - multiset{size} + multiset{size} == live;
      state.DecBounded(size);
      if state.need >= size {
        state := state.(privateQuota := state.privateQuota + size, need := state.need - size);
      } else {
        state := state.(privateQuota := state.privateQuota + state.need, need := 0);
      }
      state := state.(used := state.used - size);
      live := live - multiset{size};
    }
  }

  // ----- The sum of a multiset ----------------------------------------------------------------------------

  ghost function AnyOf(m: multiset<nat>): (x: nat)
    requires m != multiset{}
    ensures x in m
  {
    var x :| x in m;
    x
  }

  ghost function Sum(m: multiset<nat>): nat
    decreases |m|
  {
    if m == multiset{} then 0 else AnyOf(m) + Sum(m - multiset{AnyOf(m)})
  }

  /** Whichever is taken out first. */
  lemma {:induction false} SumTake(m: multiset<nat>, y: nat)
    requires y in m
    ensures Sum(m) == y + Sum(m - multiset{y})
    decreases |m|
  {
    hide AnyOf;
    var x := AnyOf(m);
    if x != y {
      var rest := m - multiset{x} - multiset{y};
      SumTake(m - multiset{x}, y);
      assert m - multiset{y} - multiset{x} == rest;
      SumTake(m - multiset{y}, x);
    }
  }

  lemma SumAdd(m: multiset<nat>, y: nat)
    ensures Sum(m + multiset{y}) == Sum(m) + y
  {
    hide Sum;
    SumTake(m + multiset{y}, y);
    assert m + multiset{y} - multiset{y} == m;
  }

  // ----- Progress -------------------------------------------------------------------------------------------

  datatype Event = Asked(size: nat, urgent: bool, granted: bool) | Freed(size: nat) | Zone(size: nat)

  ghost predicate Step(s: State, e: Event, s': State) {
    match e
    case Asked(size, urgent, granted) => (s', granted) == s.Inc(size, urgent)
    case Freed(size) => size <= s.used && s' == s.Dec(size)
    case Zone(size) => s' == s.(quota := s.quota + size)
  }

  ghost predicate Run(states: seq<State>, events: seq<Event>) {
    && |states| == |events| + 1
    && forall t :: 0 <= t < |events| ==> Step(states[t], events[t], states[t + 1])
  }

  function FreedBytes(events: seq<Event>): nat {
    if events == [] then 0
    else FreedBytes(events[..|events| - 1]) + (var e := events[|events| - 1]; if e.Freed? then e.size else 0)
  }

  /** The bytes that urgent requests drew from what was set aside. */
  function DrawnBytes(states: seq<State>, events: seq<Event>): nat
    requires |states| == |events| + 1
  {
    if events == [] then 0
    else
      var n := |events| - 1;
      var e := events[n];
      DrawnBytes(states[..n + 1], events[..n]) + (if e.Asked? && states[n].Draws(e.size, e.urgent) then e.size else 0)
  }

  /** In every run from within the quota, it is never exceeded. */
  lemma {:induction false} RunBounded(states: seq<State>, events: seq<Event>)
    requires Run(states, events) && states[0].Bounded()
    ensures states[|events|].Bounded()
  {
    if events != [] {
      var n := |events| - 1;
      RunBounded(states[..n + 1], events[..n]);
      var s := states[n];
      assert Step(s, events[n], states[n + 1]);
      match events[n]
      case Asked(size, urgent, granted) => s.IncBounded(size, urgent);
      case Freed(size) => s.DecBounded(size);
      case Zone(size) =>
    }
  }

  function GrantedBytes(events: seq<Event>): nat {
    if events == [] then 0
    else
      var e := events[|events| - 1];
      GrantedBytes(events[..|events| - 1]) + if e.Asked? && e.granted then e.size else 0
  }

  function ZoneBytes(events: seq<Event>): nat {
    if events == [] then 0
    else
      var e := events[|events| - 1];
      ZoneBytes(events[..|events| - 1]) + if e.Zone? then e.size else 0
  }

  /** A request that keeps what is granted and not freed below the threshold's share of the zones. */
  ghost predicate Modest(threshold: nat, before: seq<Event>, e: Event) {
    e.Asked? ==> 100 * (GrantedBytes(before) - FreedBytes(before) + e.size + 1) <= threshold * ZoneBytes(before)
  }

  /** In every run from nothing in which every request is like that, none is turned down, and nothing is
      set aside. */
  lemma {:induction false} NoneTurnedDown(states: seq<State>, events: seq<Event>)
    requires Run(states, events) && states[0] == State(states[0].threshold, 0, 0, 0, 0)
    requires forall t :: 0 <= t < |events| ==> Modest(states[0].threshold, events[..t], events[t])
    ensures forall t :: 0 <= t < |events| && events[t].Asked? ==> events[t].granted
    ensures var s := states[|events|];
            && s.quota == ZoneBytes(events) && s.used == GrantedBytes(events) - FreedBytes(events)
            && s.privateQuota == 0 && s.need == 0 && s.threshold == states[0].threshold
  {
    if events != [] {
      var n := |events| - 1;
      var before, last := events[..n], events[n];
      forall t | 0 <= t < n
        ensures Modest(states[0].threshold, before[..t], before[t])
      {
        assert before[..t] == events[..t];
        assert Modest(states[0].threshold, events[..t], events[t]);
      }
      NoneTurnedDown(states[..n + 1], before);
      assert Modest(states[0].threshold, events[..n], last);
      assert Step(states[n], last, states[n + 1]);
      NextTurn(states[n], before, last, states[n + 1]);
      assert events == before + [last];
    }
  }

  lemma NextTurn(s: State, before: seq<Event>, e: Event, s': State)
    requires Step(s, e, s') && Modest(s.threshold, before, e)
    requires s.quota == ZoneBytes(before) && s.used == GrantedBytes(before) - FreedBytes(before)
    requires s.privateQuota == 0 && s.need == 0
    ensures e.Asked? ==> e.granted
    ensures var events := before + [e];
            && s'.quota == ZoneBytes(events) && s'.used == GrantedBytes(events) - FreedBytes(events)
            && s'.privateQuota == 0 && s'.need == 0 && s'.threshold == s.threshold
  {
    assert (before + [e])[..|before|] == before;
    if e.Asked? { s.FitsIff(e.size); }
  }

  function Min(a: nat, b: nat): nat {
    if a <= b then a else b
  }

  /** Whatever else is asked, granted and refused in between, what is freed is set aside until all that
      was owed is, but for what urgent requests have drawn since. */
  lemma {:induction false} FreedIsSetAside(states: seq<State>, events: seq<Event>)
    requires Run(states, events)
    ensures var s, s', freed := states[0], states[|events|], FreedBytes(events);
            && s'.need + freed >= s.need
            && s'.privateQuota + DrawnBytes(states, events) >= s.privateQuota + Min(freed, s.need)
  {
    if events != [] {
      var n := |events| - 1;
      FreedIsSetAside(states[..n + 1], events[..n]);
      assert Step(states[n], events[n], states[n + 1]);
    }
  }

  /** Progress: a request that was turned down is granted when asked again urgently, once as much has
      been freed as was owed, unless others have drawn on it. */
  lemma TryAgain(s: State, size: nat, urgent: bool, states: seq<State>, events: seq<Event>)
    requires !s.Inc(size, urgent).1 && Run(states, events) && states[0] == s.Inc(size, urgent).0
    requires FreedBytes(events) >= states[0].need && DrawnBytes(states, events) == 0
    ensures states[|events|].Draws(size, true) && states[|events|].Inc(size, true).1
  {
    FreedIsSetAside(states, events);
  }
}
