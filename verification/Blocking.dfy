/** The bounded blocking queue, as the steps its threads take under its lock.  A wait on a condition
    variable ends one step; the thread sleeps until a notification, or nothing at all, signals it, and
    its next step begins when it has the lock again. */
module Blocking {

  type Tid = nat

  /** The queue, and who waits in it. */
  datatype State<T> = State(
    capacity: nat, items: seq<T>, shut: bool,
    sleepingGetters: set<Tid>, signalledGetters: set<Tid>,
    sleepingPutters: map<Tid, T>, signalledPutters: map<Tid, T>)
  {
    ghost predicate Idle(t: Tid) {
      && t !in sleepingGetters && t !in signalledGetters
      && t !in sleepingPutters && t !in signalledPutters
    }

    /** No wakeup is ever lost: while someone sleeps, as many have been signalled as could go on. */
    ghost predicate Inv() {
      && |items| <= capacity
      && sleepingGetters !! signalledGetters && sleepingPutters.Keys !! signalledPutters.Keys
      && (shut ==> sleepingGetters == {} && sleepingPutters == map[])
      && (sleepingGetters != {} ==> |signalledGetters| >= |items|)
      && (sleepingPutters != map[] ==> |signalledPutters| >= capacity - |items|)
    }
  }

  // ----- Steps ---------------------------------------------------------------------------------------------

  /** notify_one for a getter: one that sleeps, if any does. */
  ghost predicate NotifiedGetter<T>(s: State<T>, s': State<T>) {
    if s.sleepingGetters == {} then s' == s
    else exists t :: t in s.sleepingGetters && s' == WakeGetter(s, t)
  }

  function WakeGetter<T>(s: State<T>, t: Tid): State<T> {
    s.(sleepingGetters := s.sleepingGetters - {t}, signalledGetters := s.signalledGetters + {t})
  }

  ghost predicate NotifiedPutter<T>(s: State<T>, s': State<T>) {
    if s.sleepingPutters == map[] then s' == s
    else exists t :: t in s.sleepingPutters && s' == WakePutter(s, t)
  }

  function WakePutter<T>(s: State<T>, t: Tid): State<T>
    requires t in s.sleepingPutters
  {
    s.(sleepingPutters := s.sleepingPutters - {t}, signalledPutters := s.signalledPutters[t := s.sleepingPutters[t]])
  }

  /** The oldest item is handed over, and a putter notified. */
  ghost predicate Got<T>(s: State<T>, s': State<T>) {
    s.items != [] && NotifiedPutter(s.(items := s.items[1..]), s')
  }

  /** A value is added behind the others, and a getter notified. */
  ghost predicate Added<T>(s: State<T>, v: T, s': State<T>) {
    NotifiedGetter(s.(items := s.items + [v]), s')
  }

  /** How a step of a call ends: with a value taken or added, turned away by the shutdown, or asleep. */
  datatype Outcome<T> = Took(value: T) | Put | Closed | Waits | Nothing

  /** What a getter does with the lock: takes, gives up, or sleeps. */
  ghost predicate GetStep<T>(s: State<T>, t: Tid, out: Outcome<T>, s': State<T>) {
    if s.items != [] then out == Took(s.items[0]) && Got(s, s')
    else if s.shut then out == Closed && s' == s
    else out == Waits && s' == s.(sleepingGetters := s.sleepingGetters + {t})
  }

  /** What a putter does with the lock: gives up, adds, or sleeps. */
  ghost predicate PutStep<T>(s: State<T>, t: Tid, v: T, out: Outcome<T>, s': State<T>) {
    if s.shut then out == Closed && s' == s
    else if |s.items| < s.capacity then out == Put && Added(s, v, s')
    else out == Waits && s' == s.(sleepingPutters := s.sleepingPutters[t := v])
  }

  /** A step, and what the call it belongs to tells its caller. */
  datatype Event<T> =
    | GetBegins(t: Tid, out: Outcome<T>) | GetResumes(t: Tid, out: Outcome<T>) | TryGets(out: Outcome<T>)
    | PutBegins(t: Tid, v: T, out: Outcome<T>) | PutResumes(t: Tid, v: T, out: Outcome<T>)
    | TryPuts(v: T, out: Outcome<T>)
    | GetterStirs(t: Tid) | PutterStirs(t: Tid) | ShutsDown

  ghost predicate Next<T>(s: State<T>, e: Event<T>, s': State<T>) {
    match e
    case GetBegins(t, out) => s.Idle(t) && GetStep(s, t, out, s')
    case GetResumes(t, out) =>
      t in s.signalledGetters && GetStep(s.(signalledGetters := s.signalledGetters - {t}), t, out, s')
    case TryGets(out) =>
      if s.items != [] then out == Took(s.items[0]) && Got(s, s')
      else out == (if s.shut then Closed else Nothing) && s' == s
    case PutBegins(t, v, out) => s.Idle(t) && PutStep(s, t, v, out, s')
    case PutResumes(t, v, out) =>
      && t in s.signalledPutters && v == s.signalledPutters[t]
      && PutStep(s.(signalledPutters := s.signalledPutters - {t}), t, v, out, s')
    case TryPuts(v, out) =>
      if |s.items| >= s.capacity || s.shut then out == Closed && s' == s else out == Put && Added(s, v, s')
    case GetterStirs(t) => t in s.sleepingGetters && s' == WakeGetter(s, t)
    case PutterStirs(t) => t in s.sleepingPutters && s' == WakePutter(s, t)
    case ShutsDown => s' == if s.shut then s else AllAwake(s)
  }

  /** shutdown's notify_all, on both conditions. */
  function AllAwake<T>(s: State<T>): State<T> {
    s.(shut := true,
       sleepingGetters := {}, signalledGetters := s.signalledGetters + s.sleepingGetters,
       sleepingPutters := map[], signalledPutters := s.signalledPutters + s.sleepingPutters)
  }

  // ----- The queue -----------------------------------------------------------------------------------------

  class BlockingQueue<T> {
    const capacity: nat
    var items: seq<T>
    var shut: bool
    var sleepingGetters: set<Tid>
    var signalledGetters: set<Tid>
    var sleepingPutters: map<Tid, T>
    var signalledPutters: map<Tid, T>

    ghost function Now(): State<T>
      reads this
    {
      State(capacity, items, shut, sleepingGetters, signalledGetters, sleepingPutters, signalledPutters)
    }

    constructor (capacity: nat)
      ensures Now() == State(capacity, [], false, {}, {}, map[], map[]) && Now().Inv()
    {
      this.capacity := capacity;
      items, shut := [], false;
      sleepingGetters, signalledGetters, sleepingPutters, signalledPutters := {}, {}, map[], map[];
    }

    method NotifyGetter()
      modifies `sleepingGetters, `signalledGetters
      ensures NotifiedGetter(old(Now()), Now())
    {
      if sleepingGetters != {} {
        ghost var s := Now();
        var t :| t in sleepingGetters;
        sleepingGetters, signalledGetters := sleepingGetters - {t}, signalledGetters + {t};
        assert Now() == WakeGetter(s, t);
      }
    }

    method NotifyPutter()
      modifies `sleepingPutters, `signalledPutters
      ensures NotifiedPutter(old(Now()), Now())
    {
      if sleepingPutters.Keys != {} {
        ghost var s := Now();
        var t :| t in sleepingPutters.Keys;
        sleepingPutters, signalledPutters := sleepingPutters - {t}, signalledPutters[t := sleepingPutters[t]];
        assert Now() == WakePutter(s, t);
      }
    }

    method Take() returns (value: T)
      requires items != []
      modifies `items, `sleepingPutters, `signalledPutters
      ensures Got(old(Now()), Now()) && value == old(items)[0] && items == old(items)[1..]
    {
      value := items[0];
      items := items[1..];
      NotifyPutter();
    }

    method Add(value: T)
      modifies `items, `sleepingGetters, `signalledGetters
      ensures Added(old(Now()), value, Now()) && items == old(items) + [value]
    {
      items := items + [value];
      NotifyGetter();
    }

    /** What a get hands out is the oldest item, which leaves the queue; if it hands out nothing, the
        queue stays as it is. */
    twostate predicate Hands(outcome: Outcome<T>)
      reads this
    {
      && (outcome.Took? <==> old(items) != [])
      && (outcome.Took? ==> [outcome.value] + items == old(items))
      && (!outcome.Took? ==> items == old(items)) && shut == old(shut)
    }

    /** What a put accepts is behind all others then; if it does not, the queue stays as it is. */
    twostate predicate Accepts(value: T, accepted: bool)
      reads this
    {
      && (accepted <==> |old(items)| < capacity && !old(shut))
      && items == (if accepted then old(items) + [value] else old(items)) && shut == old(shut)
    }

    /** blocking_get, from the lock to the end or to the wait. */
    method GetWithLock(t: Tid) returns (outcome: Outcome<T>)
      modifies this
      ensures GetStep(old(Now()), t, outcome, Now()) && Hands(outcome)
      ensures outcome == Waits <==> old(items) == [] && !old(shut)
    {
      if items == [] && !shut {
        sleepingGetters := sleepingGetters + {t};
        return Waits;
      }
      if items != [] {
        var value := Take();
        return Took(value);
      }
      return Closed;
    }

    method BlockingGet(t: Tid) returns (outcome: Outcome<T>)
      requires Now().Inv() && Now().Idle(t)
      modifies this
      ensures Next(old(Now()), GetBegins(t, outcome), Now()) && Now().Inv() && Hands(outcome)
      ensures outcome == Waits <==> old(items) == [] && !old(shut)
      ensures t in sleepingGetters <==> outcome == Waits
    {
      ghost var s := Now();
      outcome := GetWithLock(t);
      NextKeeps(s, GetBegins(t, outcome), Now());
    }

    method ResumeGet(t: Tid) returns (outcome: Outcome<T>)
      requires Now().Inv() && t in signalledGetters
      modifies this
      ensures Next(old(Now()), GetResumes(t, outcome), Now()) && Now().Inv() && Hands(outcome)
      ensures outcome == Waits <==> old(items) == [] && !old(shut)
      ensures t in sleepingGetters <==> outcome == Waits
    {
      ghost var s := Now();
      signalledGetters := signalledGetters - {t};
      outcome := GetWithLock(t);
      NextKeeps(s, GetResumes(t, outcome), Now());
    }

    method TryGet() returns (outcome: Outcome<T>)
      requires Now().Inv()
      modifies this
      ensures Next(old(Now()), TryGets(outcome), Now()) && Now().Inv() && Hands(outcome)
      ensures outcome == Closed <==> old(items) == [] && old(shut)
      ensures outcome == Nothing <==> old(items) == [] && !old(shut)
    {
      ghost var s := Now();
      if items != [] {
        var value := Take();
        outcome := Took(value);
      } else {
        outcome := if shut then Closed else Nothing;
      }
      NextKeeps(s, TryGets(outcome), Now());
    }

    /** blocking_put, from the lock to the end or to the wait. */
    method PutWithLock(t: Tid, value: T) returns (outcome: Outcome<T>)
      modifies this
      ensures PutStep(old(Now()), t, value, outcome, Now()) && Accepts(value, outcome == Put)
      ensures outcome == Waits <==> |old(items)| >= capacity && !old(shut)
    {
      if |items| >= capacity && !shut {
        sleepingPutters := sleepingPutters[t := value];
        return Waits;
      }
      if !shut {
        Add(value);
        return Put;
      }
      return Closed;
    }

    method BlockingPut(t: Tid, value: T) returns (outcome: Outcome<T>)
      requires Now().Inv() && Now().Idle(t)
      modifies this
      ensures Next(old(Now()), PutBegins(t, value, outcome), Now()) && Now().Inv() && Accepts(value, outcome == Put)
      ensures outcome == Waits <==> |old(items)| >= capacity && !old(shut)
      ensures t in sleepingPutters <==> outcome == Waits
    {
      ghost var s := Now();
      outcome := PutWithLock(t, value);
      NextKeeps(s, PutBegins(t, value, outcome), Now());
    }

    method ResumePut(t: Tid) returns (outcome: Outcome<T>)
      requires Now().Inv() && t in signalledPutters
      modifies this
      ensures Next(old(Now()), PutResumes(t, old(signalledPutters)[t], outcome), Now()) && Now().Inv()
      ensures Accepts(old(signalledPutters)[t], outcome == Put)
      ensures outcome == Waits <==> |old(items)| >= capacity && !old(shut)
      ensures t in sleepingPutters <==> outcome == Waits
    {
      ghost var s := Now();
      var value := signalledPutters[t];
      signalledPutters := signalledPutters - {t};
      outcome := PutWithLock(t, value);
      NextKeeps(s, PutResumes(t, value, outcome), Now());
    }

    method TryPut(value: T) returns (ok: bool)
      requires Now().Inv()
      modifies this
      ensures Next(old(Now()), TryPuts(value, if ok then Put else Closed), Now()) && Now().Inv() && Accepts(value, ok)
    {
      ghost var s := Now();
      ok := !(|items| >= capacity || shut);
      if ok {
        Add(value);
      }
      NextKeeps(s, TryPuts(value, if ok then Put else Closed), Now());
    }

    method Shutdown()
      requires Now().Inv()
      modifies this
      ensures Next(old(Now()), ShutsDown, Now()) && Now().Inv()
      ensures shut && items == old(items) && sleepingGetters == {} && sleepingPutters == map[]
      ensures signalledGetters == old(signalledGetters + sleepingGetters)
      ensures signalledPutters == old(signalledPutters + sleepingPutters)
    {
      ghost var s := Now();
      if !shut {
        shut := true;
        signalledGetters, sleepingGetters := signalledGetters + sleepingGetters, {};
        signalledPutters, sleepingPutters := signalledPutters + sleepingPutters, map[];
      }
      NextKeeps(s, ShutsDown, Now());
    }
  }

  // ----- What every step keeps ---------------------------------------------------------------------------------

  lemma GetterWoken<T>(s: State<T>, s': State<T>)
    requires NotifiedGetter(s, s') && s.sleepingGetters !! s.signalledGetters
    ensures s' == s.(sleepingGetters := s'.sleepingGetters, signalledGetters := s'.signalledGetters)
    ensures s'.sleepingGetters !! s'.signalledGetters
    ensures s.sleepingGetters == {} ==> s'.sleepingGetters == {}
    ensures s.sleepingGetters != {} ==> |s'.signalledGetters| == |s.signalledGetters| + 1
  {}

  lemma PutterWoken<T>(s: State<T>, s': State<T>)
    requires NotifiedPutter(s, s') && s.sleepingPutters.Keys !! s.signalledPutters.Keys
    ensures s' == s.(sleepingPutters := s'.sleepingPutters, signalledPutters := s'.signalledPutters)
    ensures s'.sleepingPutters.Keys !! s'.signalledPutters.Keys
    ensures s.sleepingPutters == map[] ==> s'.sleepingPutters == map[]
    ensures s.sleepingPutters != map[] ==> |s'.signalledPutters| == |s.signalledPutters| + 1
  {
    if s.sleepingPutters != map[] {
      var t :| t in s.sleepingPutters && s' == WakePutter(s, t);
      OneMore(s.signalledPutters, t, s.sleepingPutters[t]);
    }
  }

  lemma OneMore<K, V>(m: map<K, V>, k: K, v: V)
    requires k !in m
    ensures |m[k := v]| == |m| + 1
  {
    MapSize(m);
    MapSize(m[k := v]);
    assert m[k := v].Keys == m.Keys + {k};
  }

  lemma MapSize<K, V>(m: map<K, V>)
    ensures |m| == |m.Keys|
  {}

  /** As Inv, with `g` getters and `p` putters less signalled: those whose turn it now is. */
  ghost predicate InvBut<T>(s: State<T>, g: nat, p: nat) {
    && |s.items| <= s.capacity
    && s.sleepingGetters !! s.signalledGetters && s.sleepingPutters.Keys !! s.signalledPutters.Keys
    && (s.shut ==> s.sleepingGetters == {} && s.sleepingPutters == map[])
    && (s.sleepingGetters != {} ==> |s.signalledGetters| + g >= |s.items|)
    && (s.sleepingPutters != map[] ==> |s.signalledPutters| + p >= s.capacity - |s.items|)
  }

  lemma TakeKeeps<T>(s: State<T>, s': State<T>)
    requires InvBut(s, 1, 0) && Got(s, s')
    ensures s'.Inv() && s'.capacity == s.capacity
  {
    PutterWoken(s.(items := s.items[1..]), s');
  }

  lemma AddKeeps<T>(s: State<T>, v: T, s': State<T>)
    requires InvBut(s, 0, 1) && Added(s, v, s') && |s.items| < s.capacity && !s.shut
    ensures s'.Inv() && s'.capacity == s.capacity
  {
    GetterWoken(s.(items := s.items + [v]), s');
  }

  lemma GetKeeps<T>(s: State<T>, t: Tid, out: Outcome<T>, s': State<T>)
    requires InvBut(s, 1, 0) && t !in s.signalledGetters && GetStep(s, t, out, s')
    ensures s'.Inv() && s'.capacity == s.capacity
  {
    if s.items != [] { TakeKeeps(s, s'); }
  }

  lemma PutKeeps<T>(s: State<T>, t: Tid, v: T, out: Outcome<T>, s': State<T>)
    requires InvBut(s, 0, 1) && t !in s.signalledPutters && PutStep(s, t, v, out, s')
    ensures s'.Inv() && s'.capacity == s.capacity
  {
    if !s.shut && |s.items| < s.capacity { AddKeeps(s, v, s'); }
  }

  /** The value a step's call returns to its caller. */
  function Returned<T>(e: Event<T>): seq<T> {
    match e
    case GetBegins(_, out) => if out.Took? then [out.value] else []
    case GetResumes(_, out) => if out.Took? then [out.value] else []
    case TryGets(out) => if out.Took? then [out.value] else []
    case _ => []
  }

  /** The value a step's call accepts from its caller. */
  function Accepted<T>(e: Event<T>): seq<T> {
    match e
    case PutBegins(_, v, out) => if out.Put? then [v] else []
    case PutResumes(_, v, out) => if out.Put? then [v] else []
    case TryPuts(v, out) => if out.Put? then [v] else []
    case _ => []
  }

  lemma NextKeeps<T>(s: State<T>, e: Event<T>, s': State<T>)
    requires s.Inv() && Next(s, e, s')
    ensures s'.Inv() && s'.capacity == s.capacity
  {
    hide Got, Added, NotifiedGetter, NotifiedPutter, GetStep, PutStep;
    match e
    case GetBegins(t, out) => GetKeeps(s, t, out, s');
    case GetResumes(t, out) => GetKeeps(s.(signalledGetters := s.signalledGetters - {t}), t, out, s');
    case TryGets(out) => if s.items != [] { TakeKeeps(s, s'); }
    case PutBegins(t, v, out) => PutKeeps(s, t, v, out, s');
    case PutResumes(t, v, out) =>
      MapSize(s.signalledPutters);
      MapSize(s.signalledPutters - {t});
      assert (s.signalledPutters - {t}).Keys == s.signalledPutters.Keys - {t};
      PutKeeps(s.(signalledPutters := s.signalledPutters - {t}), t, v, out, s');
    case TryPuts(v, out) => if |s.items| < s.capacity && !s.shut { AddKeeps(s, v, s'); }
    case GetterStirs(t) => GetterStirKeeps(s, t);
    case PutterStirs(t) => PutterStirKeeps(s, t);
    case ShutsDown => ShutKeeps(s);
  }

  /** What is in the queue after a step is what was and what is accepted, less what is returned. */
  lemma NextMoves<T>(s: State<T>, e: Event<T>, s': State<T>)
    requires s.Inv() && Next(s, e, s')
    ensures Returned(e) + s'.items == s.items + Accepted(e)
  {}

  lemma GetterStirKeeps<T>(s: State<T>, t: Tid)
    requires s.Inv() && t in s.sleepingGetters
    ensures WakeGetter(s, t).Inv()
  {}

  lemma PutterStirKeeps<T>(s: State<T>, t: Tid)
    requires s.Inv() && t in s.sleepingPutters
    ensures WakePutter(s, t).Inv()
  {
    OneMore(s.signalledPutters, t, s.sleepingPutters[t]);
  }

  lemma ShutKeeps<T>(s: State<T>)
    requires s.Inv()
    ensures AllAwake(s).Inv()
  {}

  // ----- Runs ------------------------------------------------------------------------------------------------

  ghost predicate Starts<T>(s: State<T>) {
    s == State(s.capacity, [], false, {}, {}, map[], map[])
  }

  ghost predicate Run<T>(states: seq<State<T>>, events: seq<Event<T>>) {
    && |states| == |events| + 1 && Starts(states[0])
    && forall i :: 0 <= i < |events| ==> Next(states[i], events[i], states[i + 1])
  }

  lemma {:induction false} RunKeeps<T>(states: seq<State<T>>, events: seq<Event<T>>)
    requires Run(states, events)
    ensures states[|events|].Inv() && states[|events|].capacity == states[0].capacity
  {
    if events != [] {
      var n := |events| - 1;
      RunKeeps(states[..n + 1], events[..n]);
      NextKeeps(states[n], events[n], states[n + 1]);
    }
  }

  /** All that the calls of a run returned, in order. */
  function AllReturned<T>(events: seq<Event<T>>): seq<T> {
    if events == [] then [] else AllReturned(events[..|events| - 1]) + Returned(events[|events| - 1])
  }

  /** All that the calls of a run accepted, in order. */
  function AllAccepted<T>(events: seq<Event<T>>): seq<T> {
    if events == [] then [] else AllAccepted(events[..|events| - 1]) + Accepted(events[|events| - 1])
  }

  lemma Passed<T>(accepted: seq<T>, a: seq<T>, returned: seq<T>, r: seq<T>, items: seq<T>, items': seq<T>)
    requires accepted == returned + items && r + items' == items + a
    ensures accepted + a == returned + r + items'
  {
    assert accepted + a == returned + (items + a) && returned + r + items' == returned + (r + items');
  }

  /** Wherever a run has come to: the values the calls returned are those the calls accepted, in that
      order and each once, less what is still in the queue, which is never over capacity. */
  lemma {:induction false} FirstInFirstOut<T>(states: seq<State<T>>, events: seq<Event<T>>)
    requires Run(states, events)
    ensures AllAccepted(events) == AllReturned(events) + states[|events|].items
    ensures |states[|events|].items| <= states[0].capacity
  {
    hide Next, State.Inv, Returned, Accepted;
    RunKeeps(states, events);
    if events != [] {
      var n := |events| - 1;
      FirstInFirstOut(states[..n + 1], events[..n]);
      RunKeeps(states[..n + 1], events[..n]);
      NextMoves(states[n], events[n], states[n + 1]);
      Passed(AllAccepted(events[..n]), Accepted(events[n]), AllReturned(events[..n]), Returned(events[n]),
             states[n].items, states[n + 1].items);
    }
  }

  /** A getter sleeps on past an item, or a putter past room, only if another has been signalled for it;
      and after a shutdown nobody sleeps. */
  lemma NoLostWakeup<T>(states: seq<State<T>>, events: seq<Event<T>>)
    requires Run(states, events)
    ensures var s := states[|events|];
            && (s.sleepingGetters != {} && s.items != [] ==> s.signalledGetters != {})
            && (s.sleepingPutters != map[] && |s.items| < s.capacity ==> s.signalledPutters != map[])
            && (s.shut ==> s.sleepingGetters == {} && s.sleepingPutters == map[])
  {
    RunKeeps(states, events);
  }

  /** Getters and putters asleep, and nobody on the way to change that. */
  ghost predicate Stuck<T>(s: State<T>) {
    && s.sleepingGetters != {} && s.sleepingPutters != map[]
    && s.signalledGetters == {} && s.signalledPutters == map[]
  }

  /** With room for anything at all, getters and putters are never all stuck. */
  lemma NeverStuck<T>(states: seq<State<T>>, events: seq<Event<T>>)
    requires Run(states, events) && states[0].capacity > 0
    ensures !Stuck(states[|events|])
  {
    RunKeeps(states, events);
  }

  /** With none, one getter and one putter already are. */
  lemma StuckWithoutRoom() returns (states: seq<State<int>>, events: seq<Event<int>>)
    ensures Run(states, events) && states[0].capacity == 0 && Stuck(states[|events|])
  {
    var s0 := State<int>.State(0, [], false, {}, {}, map[], map[]);
    var s1 := s0.(sleepingGetters := {1});
    var s2 := s1.(sleepingPutters := map[2 := 7]);
    states, events := [s0, s1, s2], [GetBegins(1, Waits), PutBegins(2, 7, Waits)];
    assert Next(s0, events[0], s1);
    assert PutStep(s1, 2, 7, Waits, s2);
    assert 2 in s2.sleepingPutters;
  }
}
