/**
 The concurrent connection pool of `pool.rs` as an interleaved step machine.

 An agent is one call of `get_or_create_async` together with the guard it
 returns. Every atomic access and every critical section is one step. The load
 of `size` is relaxed, so it may observe any value; `Sequential` says that it
 observes the current one.
 */
module Pool {
  type Item = nat

  datatype Agent =
    | Starting                  // about to take the lock for the fast path
    | Loading                   // found nothing idle, about to load `size`
    | Reserving                 // saw room, about to add one to `size`
    | Cancelling                // added one past the limit, about to take it back
    | Creating                  // awaiting the factory
    | Waiting                   // in the loop that waits for an idle item
    | Holding(item: Item)       // owns a guard that was not discarded
    | Releasing(item: Item)     // marked the guard discarded, about to subtract from `size`
    | Dropping(item: Item)      // gave its capacity back; the discarded item is not dropped yet
    | Done

  /** `size` is the shared counter, `idle` the locked queue, `created` the number of items made so far. */
  datatype State = State(maxSize: nat, size: int, idle: seq<Item>, agents: seq<Agent>, created: nat)

  datatype Step =
    | Spawn
    | FastPath(i: nat)
    | Load(i: nat, observed: nat)
    | Reserve(i: nat)
    | Cancel(i: nat)
    | Create(i: nat)
    | WaitPop(i: nat)
    | Put(i: nat)               // dropping a guard that was not discarded
    | MarkDiscarded(i: nat)
    | Release(i: nat)
    | Drop(i: nat)              // dropping a discarded guard; `replace` has a new item made before it

  function Init(maxSize: nat): State {
    State(maxSize, 0, [], [], 0)
  }

  predicate At(s: State, i: nat, a: Agent) {
    i < |s.agents| && s.agents[i] == a
  }

  predicate HoldsItem(s: State, i: nat) {
    i < |s.agents| && s.agents[i].Holding?
  }

  predicate Enabled(s: State, step: Step) {
    match step
    case Spawn => true
    case FastPath(i) => At(s, i, Starting)
    case Load(i, _) => At(s, i, Loading)
    case Reserve(i) => At(s, i, Reserving)
    case Cancel(i) => At(s, i, Cancelling)
    case Create(i) => At(s, i, Creating)
    case WaitPop(i) => At(s, i, Waiting)
    case Put(i) => HoldsItem(s, i)
    case MarkDiscarded(i) => HoldsItem(s, i)
    case Release(i) => i < |s.agents| && s.agents[i].Releasing?
    case Drop(i) => i < |s.agents| && s.agents[i].Dropping?
  }

  /** The load of `size` observes the current value. */
  predicate Sequential(s: State, step: Step) {
    step.Load? ==> s.size >= 0 && step.observed == s.size
  }

  function WithAgent(s: State, i: nat, a: Agent): State
    requires i < |s.agents|
  {
    s.(agents := s.agents[i := a])
  }

  /** Takes the front of the queue, or moves on when it is empty. */
  function PopFront(s: State, i: nat, otherwise: Agent): State
    requires i < |s.agents|
  {
    if |s.idle| > 0 then WithAgent(s, i, Holding(s.idle[0])).(idle := s.idle[1..])
    else WithAgent(s, i, otherwise)
  }

  function Next(s: State, step: Step): State
    requires Enabled(s, step)
  {
    match step
    case Spawn => s.(agents := s.agents + [Starting])
    case FastPath(i) => PopFront(s, i, Loading)
    case Load(i, observed) => WithAgent(s, i, if observed < s.maxSize then Reserving else Waiting)
    case Reserve(i) =>
      var prev := s.size;
      WithAgent(s, i, if prev > s.maxSize then Cancelling else Creating).(size := prev + 1)
    case Cancel(i) => WithAgent(s, i, Waiting).(size := s.size - 1)
    case Create(i) => WithAgent(s, i, Holding(s.created)).(created := s.created + 1)
    case WaitPop(i) => PopFront(s, i, Waiting)
    case Put(i) => WithAgent(s, i, Done).(idle := s.idle + [s.agents[i].item])
    case MarkDiscarded(i) => WithAgent(s, i, Releasing(s.agents[i].item))
    case Release(i) => WithAgent(s, i, Dropping(s.agents[i].item)).(size := s.size - 1)
    case Drop(i) => WithAgent(s, i, Done)
  }

  /** A run of the pool, starting from `s`. */
  ghost predicate IsRun(s: State, steps: seq<Step>)
    decreases |steps|
  {
    steps == [] || (Enabled(s, steps[0]) && IsRun(Next(s, steps[0]), steps[1..]))
  }

  ghost function After(s: State, steps: seq<Step>): State
    requires IsRun(s, steps)
    decreases |steps|
  {
    if steps == [] then s else After(Next(s, steps[0]), steps[1..])
  }

  /** A run in which every load of `size` is up to date. */
  ghost predicate IsSequentialRun(s: State, steps: seq<Step>)
    ensures IsSequentialRun(s, steps) ==> IsRun(s, steps)
    decreases |steps|
  {
    steps == [] ||
    (Enabled(s, steps[0]) && Sequential(s, steps[0]) && IsSequentialRun(Next(s, steps[0]), steps[1..]))
  }

  // ----- counting

  /** What an agent contributes to `size`. */
  function Reserved(a: Agent): nat {
    if a.Cancelling? || a.Creating? || a.Holding? || a.Releasing? then 1 else 0
  }

  /** What an agent contributes to the items that hold capacity: one being made, or one held and not given back. */
  function Charged(a: Agent): nat {
    if a.Creating? || a.Holding? || a.Releasing? then 1 else 0
  }

  function SumReserved(agents: seq<Agent>): nat {
    if agents == [] then 0 else SumReserved(agents[..|agents| - 1]) + Reserved(agents[|agents| - 1])
  }

  function SumCharged(agents: seq<Agent>): nat {
    if agents == [] then 0 else SumCharged(agents[..|agents| - 1]) + Charged(agents[|agents| - 1])
  }

  /**
   The items that hold capacity: idle, being made, or owned and not given back.
   A discarded item that is still to be dropped is not one of them.
   */
  function ChargedItems(s: State): nat {
    |s.idle| + SumCharged(s.agents)
  }

  lemma {:induction false} SumsUpdate(agents: seq<Agent>, i: nat, a: Agent)
    requires i < |agents|
    ensures SumReserved(agents[i := a]) == SumReserved(agents) - Reserved(agents[i]) + Reserved(a)
    ensures SumCharged(agents[i := a]) == SumCharged(agents) - Charged(agents[i]) + Charged(a)
  {
    var n := |agents| - 1;
    if i == n {
      assert agents[i := a][..n] == agents[..n];
    } else {
      assert agents[i := a][..n] == agents[..n][i := a];
      SumsUpdate(agents[..n], i, a);
    }
  }

  function CountCancelling(agents: seq<Agent>): nat {
    if agents == [] then 0
    else CountCancelling(agents[..|agents| - 1]) + if agents[|agents| - 1].Cancelling? then 1 else 0
  }

  /** What is reserved is capacity that items hold, and what callers past the limit are about to take back. */
  lemma {:induction false} ReservedSplit(agents: seq<Agent>)
    ensures SumReserved(agents) == SumCharged(agents) + CountCancelling(agents)
  {
    if agents != [] {
      ReservedSplit(agents[..|agents| - 1]);
    }
  }

  lemma {:induction false} ChargedWithinReserved(agents: seq<Agent>)
    ensures SumCharged(agents) <= SumReserved(agents)
    ensures forall i :: 0 <= i < |agents| ==> SumReserved(agents) >= Reserved(agents[i])
    ensures forall i :: 0 <= i < |agents| && agents[i].Cancelling? ==> SumCharged(agents) < SumReserved(agents)
  {
    if agents != [] {
      ChargedWithinReserved(agents[..|agents| - 1]);
    }
  }

  // ----- what every step keeps

  /** The agent owns a connection, discarded or not. */
  predicate Owns(a: Agent) {
    a.Holding? || a.Releasing? || a.Dropping?
  }

  /** No item is idle twice, owned twice, or both idle and owned. */
  ghost predicate ItemsApart(s: State) {
    && (forall j :: 0 <= j < |s.idle| ==> s.idle[j] < s.created)
    && (forall j, k :: 0 <= j < k < |s.idle| ==> s.idle[j] != s.idle[k])
    && (forall i :: 0 <= i < |s.agents| && Owns(s.agents[i]) ==> s.agents[i].item < s.created)
    && (forall i, k :: 0 <= i < k < |s.agents| && Owns(s.agents[i]) && Owns(s.agents[k]) ==>
          s.agents[i].item != s.agents[k].item)
    && (forall i, j :: 0 <= i < |s.agents| && Owns(s.agents[i]) && 0 <= j < |s.idle| ==>
          s.agents[i].item != s.idle[j])
  }

  /** The guard after the reservation is `prev > max_size`, so items can hold one more than the capacity `max_size`. */
  function Bound(maxSize: nat): nat {
    if maxSize == 0 then 0 else maxSize + 1
  }

  ghost predicate Inv(s: State) {
    && s.size == |s.idle| + SumReserved(s.agents)
    && ChargedItems(s) <= Bound(s.maxSize)
    && (s.maxSize == 0 ==> Closed(s.agents))
    && ItemsApart(s)
  }

  /** A pool of size zero never lets anyone reserve. */
  ghost predicate Closed(agents: seq<Agent>) {
    forall i :: 0 <= i < |agents| ==> !agents[i].Reserving? && Reserved(agents[i]) == 0
  }

  lemma NextKeepsClosed(s: State, step: Step)
    requires Closed(s.agents) && s.maxSize == 0 && s.idle == [] && Enabled(s, step)
    ensures Next(s, step).maxSize == 0 && Closed(Next(s, step).agents)
  {
    if !step.Spawn? {
      assert !s.agents[step.i].Reserving? && Reserved(s.agents[step.i]) == 0;
    }
  }

  lemma SumsSpawn(agents: seq<Agent>)
    ensures SumReserved(agents + [Starting]) == SumReserved(agents) &&
            SumCharged(agents + [Starting]) == SumCharged(agents)
  {
    assert (agents + [Starting])[..|agents|] == agents;
  }

  lemma NextKeepsSize(s: State, step: Step)
    requires s.size == |s.idle| + SumReserved(s.agents) && Enabled(s, step)
    ensures Next(s, step).size == |Next(s, step).idle| + SumReserved(Next(s, step).agents)
  {
    hide SumReserved, SumCharged;
    if step.Spawn? {
      SumsSpawn(s.agents);
    } else {
      SumsUpdate(s.agents, step.i, Next(s, step).agents[step.i]);
    }
  }

  /** Only a reservation within the limit adds an item that holds capacity. */
  lemma NextCharged(s: State, step: Step)
    requires Enabled(s, step)
    ensures ChargedItems(Next(s, step)) <= ChargedItems(s) + if step.Reserve? && s.size <= s.maxSize then 1 else 0
  {
    hide SumReserved, SumCharged;
    if step.Spawn? {
      SumsSpawn(s.agents);
    } else {
      SumsUpdate(s.agents, step.i, Next(s, step).agents[step.i]);
    }
  }

  lemma NextKeepsBound(s: State, step: Step)
    requires Inv(s) && Enabled(s, step)
    ensures ChargedItems(Next(s, step)) <= Bound(s.maxSize)
  {
    NextCharged(s, step);
    ChargedWithinReserved(s.agents);
    assert step.Reserve? ==> s.agents[step.i].Reserving?;
    hide Next, SumReserved, SumCharged, ItemsApart;
  }

  /** An agent that changes without touching the queue keeps its item, gives it up, or gets a new one. */
  lemma AgentKeepsItemsApart(s: State, i: nat, a: Agent, s': State)
    requires ItemsApart(s) && i < |s.agents|
    requires s'.agents == s.agents[i := a] && s'.idle == s.idle && s'.created >= s.created
    requires Owns(a) ==> (Owns(s.agents[i]) && a.item == s.agents[i].item) || s.created == a.item < s'.created
    ensures ItemsApart(s')
  {
  }

  lemma PopKeepsItemsApart(s: State, i: nat, s': State)
    requires ItemsApart(s) && i < |s.agents| && |s.idle| > 0
    requires s'.agents == s.agents[i := Holding(s.idle[0])] && s'.idle == s.idle[1..] && s'.created == s.created
    ensures ItemsApart(s')
  {
  }

  lemma PutKeepsItemsApart(s: State, i: nat, s': State)
    requires ItemsApart(s) && i < |s.agents| && s.agents[i].Holding?
    requires s'.agents == s.agents[i := Done] && s'.idle == s.idle + [s.agents[i].item] && s'.created == s.created
    ensures ItemsApart(s')
  {
  }

  lemma NextKeepsItemsApart(s: State, step: Step)
    requires ItemsApart(s) && Enabled(s, step)
    ensures ItemsApart(Next(s, step))
  {
    var s' := Next(s, step);
    if step.Put? {
      PutKeepsItemsApart(s, step.i, s');
    } else if (step.FastPath? || step.WaitPop?) && |s.idle| > 0 {
      PopKeepsItemsApart(s, step.i, s');
    } else if !step.Spawn? {
      AgentKeepsItemsApart(s, step.i, s'.agents[step.i], s');
    }
  }

  /** Every step keeps the invariant, and no subtraction from `size` underflows. */
  lemma NextKeepsInv(s: State, step: Step)
    requires Inv(s) && Enabled(s, step)
    ensures Inv(Next(s, step))
    ensures step.Cancel? || step.Release? ==> s.size >= 1
  {
    ChargedWithinReserved(s.agents);
    if s.maxSize == 0 {
      NextKeepsClosed(s, step);
    }
    NextKeepsSize(s, step);
    NextKeepsBound(s, step);
    NextKeepsItemsApart(s, step);
    hide SumReserved, SumCharged, ChargedItems, ItemsApart, Closed;
  }

  /** Safety of every run, whatever the interleaving and whatever the loads observe. */
  lemma {:induction false} RunsAreSafe(s: State, steps: seq<Step>)
    requires Inv(s) && IsRun(s, steps)
    ensures var t := After(s, steps);
            && Inv(t) && t.maxSize == s.maxSize
            && 0 <= t.size
            && (forall step :: Enabled(t, step) && (step.Cancel? || step.Release?) ==> t.size >= 1)
    decreases |steps|
  {
    if steps != [] {
      NextKeepsInv(s, steps[0]);
      RunsAreSafe(Next(s, steps[0]), steps[1..]);
    } else {
      forall step | Enabled(s, step) && (step.Cancel? || step.Release?) ensures s.size >= 1 {
        NextKeepsInv(s, step);
      }
    }
  }

  /** From an empty pool: `size` is accounted for exactly, and the items that hold capacity stay within the bound. */
  lemma PoolIsSafe(maxSize: nat, steps: seq<Step>)
    requires IsRun(Init(maxSize), steps)
    ensures var t := After(Init(maxSize), steps);
            && t.size == |t.idle| + SumReserved(t.agents) == ChargedItems(t) + CountCancelling(t.agents)
            && ChargedItems(t) <= Bound(maxSize)
            && ItemsApart(t)
  {
    ReservedSplit(After(Init(maxSize), steps).agents);
    RunsAreSafe(Init(maxSize), steps);
  }

  // ----- the bound is reached

  lemma {:induction false} RunSnoc(s: State, steps: seq<Step>, step: Step)
    requires IsSequentialRun(s, steps)
    requires Enabled(After(s, steps), step) && Sequential(After(s, steps), step)
    ensures IsSequentialRun(s, steps + [step])
    ensures After(s, steps + [step]) == Next(After(s, steps), step)
    decreases |steps|
  {
    if steps != [] {
      assert (steps + [step])[1..] == steps[1..] + [step];
      RunSnoc(Next(s, steps[0]), steps[1..], step);
    } else {
      assert [] + [step] == [step] && IsSequentialRun(Next(s, step), [step][1..]);
    }
  }

  /** A run from an empty pool to `t`. */
  ghost predicate Reaches(maxSize: nat, steps: seq<Step>, t: State) {
    IsSequentialRun(Init(maxSize), steps) && After(Init(maxSize), steps) == t
  }

  lemma Extend(maxSize: nat, steps: seq<Step>, t: State, step: Step) returns (steps': seq<Step>, t': State)
    requires Reaches(maxSize, steps, t) && Enabled(t, step) && Sequential(t, step)
    ensures t' == Next(t, step) && Reaches(maxSize, steps', t')
  {
    steps', t' := Then(Init(maxSize), steps, t, step);
  }

  lemma NewcomerHoldsNothing(t: State)
    ensures ChargedItems(t.(agents := t.agents + [Reserving])) == ChargedItems(t)
  {
    assert (t.agents + [Reserving])[..|t.agents|] == t.agents;
  }

  /** A fresh agent finds nothing idle and reads `size`. */
  lemma Arrive(maxSize: nat, steps: seq<Step>, t: State) returns (steps': seq<Step>, t': State)
    requires Reaches(maxSize, steps, t) && t.idle == [] && 0 <= t.size < t.maxSize
    ensures Reaches(maxSize, steps', t')
    ensures t' == t.(agents := t.agents + [Reserving]) && ChargedItems(t') == ChargedItems(t)
  {
    hide Reaches, SumCharged, SumReserved;
    var n := |t.agents|;
    var u := t;
    steps', u := Extend(maxSize, steps, t, Spawn);
    steps', u := Extend(maxSize, steps', u, FastPath(n));
    steps', u := Extend(maxSize, steps', u, Load(n, t.size));
    t' := u;
    assert t'.agents == t.agents + [Reserving];
    NewcomerHoldsNothing(t);
  }

  /** `k` agents hold the first `k` items. */
  ghost predicate Filled(t: State, maxSize: nat, k: nat) {
    t == State(maxSize, k, [], t.agents, k) && SumCharged(t.agents) == k
  }

  lemma {:induction false} FillPool(maxSize: nat, k: nat) returns (steps: seq<Step>, t: State)
    requires k <= maxSize
    ensures Reaches(maxSize, steps, t) && Filled(t, maxSize, k)
  {
    if k == 0 {
      steps, t := [], Init(maxSize);
    } else {
      var s;
      steps, s := FillPool(maxSize, k - 1);
      var n := |s.agents|;
      steps, t := Arrive(maxSize, steps, s);
      hide Reaches;
      assert t.agents[..n] == s.agents && SumCharged(t.agents) == SumCharged(s.agents);
      SumsUpdate(t.agents, n, Creating);
      steps, t := Extend(maxSize, steps, t, Reserve(n));
      SumsUpdate(t.agents, n, Holding(t.created));
      steps, t := Extend(maxSize, steps, t, Create(n));
    }
  }

  /** Two agents that read `size` before either reserves push the pool one past its limit. */
  lemma BoundIsReached(maxSize: nat) returns (steps: seq<Step>, t: State)
    requires maxSize >= 1
    ensures Reaches(maxSize, steps, t) && ChargedItems(t) == Bound(maxSize) == maxSize + 1
  {
    var s;
    steps, s := FillPool(maxSize, maxSize - 1);
    var n := |s.agents|;
    var s1;
    steps, s1 := Arrive(maxSize, steps, s);
    hide Reaches;
    assert s1.agents[..n] == s.agents;
    var s2;
    steps, s2 := Arrive(maxSize, steps, s1);
    assert s2.agents[..n + 1] == s1.agents;
    steps, t := ReserveTwice(maxSize, steps, s2, n);
  }

  /** Two reservations made on the last free place both succeed. */
  lemma ReserveTwice(maxSize: nat, steps: seq<Step>, s: State, n: nat) returns (steps': seq<Step>, t: State)
    requires maxSize >= 1 && Reaches(maxSize, steps, s) && s.maxSize == maxSize && s.size == maxSize - 1
    requires At(s, n, Reserving) && At(s, n + 1, Reserving) && ChargedItems(s) == maxSize - 1
    ensures Reaches(maxSize, steps', t) && ChargedItems(t) == maxSize + 1
  {
    hide Reaches, SumCharged, SumReserved;
    SumsUpdate(s.agents, n, Creating);
    steps', t := Extend(maxSize, steps, s, Reserve(n));
    SumsUpdate(t.agents, n + 1, Creating);
    steps', t := Extend(maxSize, steps', t, Reserve(n + 1));
  }

  /** The limit is kept by all runs exactly when it is zero. */
  lemma LimitKeptExactly(maxSize: nat)
    ensures (forall steps :: IsRun(Init(maxSize), steps) ==> ChargedItems(After(Init(maxSize), steps)) <= maxSize) <==>
            maxSize == 0
  {
    if maxSize == 0 {
      forall steps | IsRun(Init(maxSize), steps) ensures ChargedItems(After(Init(maxSize), steps)) <= maxSize {
        PoolIsSafe(maxSize, steps);
      }
    } else {
      var steps, t := BoundIsReached(maxSize);
      assert IsSequentialRun(Init(maxSize), steps) && After(Init(maxSize), steps) == t;
    }
  }

  /** Discarded items that wait to be dropped are not bounded, unless the pool is always empty. */
  lemma {:induction false} DiscardedUnbounded(maxSize: nat, k: nat) returns (steps: seq<Step>, t: State)
    requires maxSize >= 1
    ensures Reaches(maxSize, steps, t) && t == State(maxSize, 0, [], t.agents, k)
    ensures |t.agents| == k && forall i :: 0 <= i < k ==> t.agents[i].Dropping?
  {
    if k == 0 {
      steps, t := [], Init(maxSize);
    } else {
      steps, t := DiscardedUnbounded(maxSize, k - 1);
      hide Reaches, SumCharged, SumReserved;
      steps, t := Arrive(maxSize, steps, t);
      steps, t := Extend(maxSize, steps, t, Reserve(k - 1));
      steps, t := Extend(maxSize, steps, t, Create(k - 1));
      steps, t := Extend(maxSize, steps, t, MarkDiscarded(k - 1));
      steps, t := Extend(maxSize, steps, t, Release(k - 1));
    }
  }

  // ----- reservations that do not overlap

  ghost predicate NobodyReserving(agents: seq<Agent>) {
    forall i :: 0 <= i < |agents| ==> !agents[i].Reserving?
  }

  /** Every load is up to date, and nobody is between a load and the reservation it leads to. */
  ghost predicate Separate(s: State, step: Step) {
    step.Load? ==> Sequential(s, step) && NobodyReserving(s.agents)
  }

  ghost predicate IsSeparateRun(s: State, steps: seq<Step>)
    ensures IsSeparateRun(s, steps) ==> IsRun(s, steps)
    decreases |steps|
  {
    steps == [] ||
    (Enabled(s, steps[0]) && Separate(s, steps[0]) && IsSeparateRun(Next(s, steps[0]), steps[1..]))
  }

  ghost predicate AtMostOneReserving(agents: seq<Agent>) {
    forall i, j :: 0 <= i < j < |agents| ==> !agents[i].Reserving? || !agents[j].Reserving?
  }

  /** Room is kept for the one agent that is about to reserve. */
  ghost predicate RoomKept(s: State) {
    && s.size == |s.idle| + SumReserved(s.agents) <= s.maxSize
    && AtMostOneReserving(s.agents)
    && (NobodyReserving(s.agents) || s.size < s.maxSize)
  }

  lemma ReservingUpdate(agents: seq<Agent>, i: nat, a: Agent)
    requires i < |agents| && AtMostOneReserving(agents)
    ensures !a.Reserving? || NobodyReserving(agents) ==> AtMostOneReserving(agents[i := a])
    ensures !a.Reserving? && (NobodyReserving(agents) || agents[i].Reserving?) ==> NobodyReserving(agents[i := a])
  {
  }

  lemma SeparateKeepsRoom(s: State, step: Step)
    requires RoomKept(s) && Enabled(s, step) && Separate(s, step)
    ensures RoomKept(Next(s, step)) && Next(s, step).maxSize == s.maxSize
  {
    NextKeepsSize(s, step);
    hide SumReserved;
    if !step.Spawn? {
      ReservingUpdate(s.agents, step.i, Next(s, step).agents[step.i]);
      assert step.Reserve? ==> s.agents[step.i].Reserving?;
    }
  }

  /**
   Without overlapping reservations the limit itself is kept, so callers that come one
   after the other never exceed it.
   */
  lemma {:induction false} SeparateRunsKeepRoom(s: State, steps: seq<Step>)
    requires RoomKept(s) && IsSeparateRun(s, steps)
    ensures var t := After(s, steps); RoomKept(t) && ChargedItems(t) <= t.size <= t.maxSize == s.maxSize
    decreases |steps|
  {
    ChargedWithinReserved(s.agents);
    if steps != [] {
      SeparateKeepsRoom(s, steps[0]);
      hide Next, Enabled, RoomKept;
      SeparateRunsKeepRoom(Next(s, steps[0]), steps[1..]);
    }
  }

  lemma SeparatePoolKeepsLimit(maxSize: nat, steps: seq<Step>)
    requires IsSeparateRun(Init(maxSize), steps)
    ensures var t := After(Init(maxSize), steps); t.size <= maxSize && ChargedItems(t) <= maxSize
  {
    SeparateRunsKeepRoom(Init(maxSize), steps);
  }

  // ----- whole calls, run alone

  /** The only step of an agent that has no item yet. */
  lemma OneWay(s: State, step: Step, i: nat)
    requires i < |s.agents| && !Owns(s.agents[i]) && Enabled(s, step) && !step.Spawn? && step.i == i
    ensures match s.agents[i]
            case Starting => step == FastPath(i)
            case Loading => step.Load?
            case Reserving => step == Reserve(i)
            case Cancelling => step == Cancel(i)
            case Creating => step == Create(i)
            case Waiting => step == WaitPop(i)
            case _ => false
  {
  }

  /**
   A caller that nobody interrupts gets the item that has been idle longest; or,
   if none is idle and there is room, a new one; or else it waits.
   */
  lemma CallAlone(s: State) returns (steps: seq<Step>, t: State)
    requires s.size >= 0
    ensures IsSequentialRun(s, steps) && After(s, steps) == t && |steps| > 0 && steps[0] == Spawn
    ensures forall k :: 0 < k < |steps| ==> !steps[k].Spawn? && steps[k].i == |s.agents|
    ensures t == if |s.idle| > 0 then s.(idle := s.idle[1..], agents := s.agents + [Holding(s.idle[0])])
                 else if s.size < s.maxSize
                 then s.(size := s.size + 1, agents := s.agents + [Holding(s.created)], created := s.created + 1)
                 else s.(agents := s.agents + [Waiting])
  {
    var n := |s.agents|;
    steps, t := Then(s, [], s, Spawn);
    steps, t := Then(s, steps, t, FastPath(n));
    if |s.idle| == 0 {
      steps, t := Then(s, steps, t, Load(n, s.size));
      if s.size < s.maxSize {
        steps, t := Then(s, steps, t, Reserve(n));
        steps, t := Then(s, steps, t, Create(n));
      }
    }
  }

  lemma Then(s: State, steps: seq<Step>, t: State, step: Step) returns (steps': seq<Step>, t': State)
    requires IsSequentialRun(s, steps) && After(s, steps) == t && Enabled(t, step) && Sequential(t, step)
    ensures steps' == steps + [step] && t' == Next(t, step)
    ensures IsSequentialRun(s, steps') && After(s, steps') == t'
  {
    RunSnoc(s, steps, step);
    steps', t' := steps + [step], Next(t, step);
  }

  /** A caller that waits gets the item that has been idle longest, as soon as it sees one. */
  lemma WaiterServed(s: State, i: nat)
    requires At(s, i, Waiting)
    ensures var t := Next(s, WaitPop(i));
            if |s.idle| > 0 then t == s.(idle := s.idle[1..], agents := s.agents[i := Holding(s.idle[0])]) else t == s
  {
    assert s.agents[i := Waiting] == s.agents;
  }

  /** A reservation past the limit is taken back, and the caller waits. */
  lemma UnluckyCall(s: State, i: nat)
    requires At(s, i, Reserving) && s.size > s.maxSize
    ensures var t := Next(s, Reserve(i));
            At(t, i, Cancelling) && Next(t, Cancel(i)) == s.(agents := s.agents[i := Waiting])
  {
    assert s.agents[i := Cancelling][i := Waiting] == s.agents[i := Waiting];
  }

  /**
   A guard gives its item back as the last of the idle ones, or, when discarded, gives up
   its capacity and the item.
   */
  lemma GuardDropped(s: State, i: nat)
    requires HoldsItem(s, i)
    ensures Next(s, Put(i)) == s.(idle := s.idle + [s.agents[i].item], agents := s.agents[i := Done])
    ensures var marked := Next(s, MarkDiscarded(i));
            && Enabled(marked, Release(i))
            && var released := Next(marked, Release(i));
               Enabled(released, Drop(i)) &&
                 Next(released, Drop(i)) == s.(size := s.size - 1, agents := s.agents[i := Done])
  {
    var item := s.agents[i].item;
    assert s.agents[i := Releasing(item)][i := Dropping(item)][i := Done] == s.agents[i := Done];
  }

  // ----- reading and reserving in one step

  /** The pool if the load and the reservation were one atomic step. */
  function AtomicNext(s: State, step: Step): State
    requires Enabled(s, step)
  {
    match step
    case Load(i, _) =>
      var loaded := Next(s, Load(i, if s.size >= 0 then s.size else 0));
      if loaded.agents[i].Reserving? then Next(loaded, Reserve(i)) else loaded
    case _ => Next(s, step)
  }

  ghost predicate IsAtomicRun(s: State, steps: seq<Step>)
    decreases |steps|
  {
    steps == [] || (Enabled(s, steps[0]) && IsAtomicRun(AtomicNext(s, steps[0]), steps[1..]))
  }

  ghost function AtomicAfter(s: State, steps: seq<Step>): State
    requires IsAtomicRun(s, steps)
    decreases |steps|
  {
    if steps == [] then s else AtomicAfter(AtomicNext(s, steps[0]), steps[1..])
  }

  ghost predicate AtomicInv(s: State) {
    && s.size == |s.idle| + SumReserved(s.agents) <= s.maxSize
    && Calm(s.agents)
  }

  /** Nobody is between the load and the reservation. */
  ghost predicate Calm(agents: seq<Agent>) {
    forall i :: 0 <= i < |agents| ==> !agents[i].Reserving? && !agents[i].Cancelling?
  }

  lemma CalmUpdate(agents: seq<Agent>, i: nat, a: Agent)
    requires Calm(agents) && !a.Reserving? && !a.Cancelling?
    ensures i < |agents| ==> Calm(agents[i := a])
    ensures Calm(agents + [a])
  {
  }

  lemma AtomicNextKeepsCounts(s: State, step: Step)
    requires AtomicInv(s) && Enabled(s, step)
    ensures var s' := AtomicNext(s, step); s'.size == |s'.idle| + SumReserved(s'.agents) <= s'.maxSize == s.maxSize
  {
    if step.Load? {
      var load := Load(step.i, s.size);
      NextKeepsSize(s, load);
      if Next(s, load).agents[step.i].Reserving? {
        NextKeepsSize(Next(s, load), Reserve(step.i));
      }
      hide SumReserved;
    } else {
      NextKeepsSize(s, step);
      hide SumReserved;
    }
  }

  lemma AtomicNextKeepsInv(s: State, step: Step)
    requires AtomicInv(s) && Enabled(s, step)
    ensures AtomicInv(AtomicNext(s, step)) && AtomicNext(s, step).maxSize == s.maxSize
  {
    AtomicNextKeepsCounts(s, step);
    assert !step.Spawn? ==> !s.agents[step.i].Reserving? && !s.agents[step.i].Cancelling?;
    CalmUpdate(s.agents, 0, Starting);
    if !step.Spawn? {
      CalmUpdate(s.agents, step.i, AtomicNext(s, step).agents[step.i]);
    }
    hide SumReserved, SumCharged, Calm;
  }

  /** Without the race between load and reservation the limit itself is never exceeded. */
  lemma {:induction false} AtomicRunsStayWithinLimit(s: State, steps: seq<Step>)
    requires AtomicInv(s) && IsAtomicRun(s, steps)
    ensures var t := AtomicAfter(s, steps); AtomicInv(t) && ChargedItems(t) <= t.size <= t.maxSize == s.maxSize
    decreases |steps|
  {
    ChargedWithinReserved(s.agents);
    if steps != [] {
      AtomicNextKeepsInv(s, steps[0]);
      hide AtomicNext, AtomicInv, Enabled;
      AtomicRunsStayWithinLimit(AtomicNext(s, steps[0]), steps[1..]);
    }
  }

  lemma AtomicPoolKeepsLimit(maxSize: nat, steps: seq<Step>)
    requires IsAtomicRun(Init(maxSize), steps)
    ensures ChargedItems(AtomicAfter(Init(maxSize), steps)) <= maxSize
  {
    AtomicRunsStayWithinLimit(Init(maxSize), steps);
  }
}
