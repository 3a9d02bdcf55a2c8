/** Core/CoreTiming.cpp as one object over two event stores.

    `State()` is the abstract state of TimingModel; every method says which abstract step it
    takes.  The stores own disjoint sets of nodes, each node in exactly one list of its store,
    so what a method says about `Repr()` says that no node is lost, duplicated or shared. */
module CoreTiming {
  import opened Words
  import opened EventQueue
  import opened TimingModel
  import opened EventLists
  import opened EventStores

  // The states that the processing loop goes through, to the first one at rest.
  ghost predicate IsPath(env: Callbacks, path: seq<Timing>) {
    && path != []
    && (forall i :: 0 <= i < |path| ==> (path[i].Due() <==> i < |path| - 1))
    && (forall i :: 0 <= i < |path| - 1 ==> path[i + 1] == Fire(env, path[i]))
  }

  lemma {:induction false} PathOf(env: Callbacks, t: Timing, n: nat) returns (path: seq<Timing>)
    requires !Process(env, t, n).Due()
    ensures IsPath(env, path) && path[0] == t && path[|path| - 1] == Process(env, t, n)
    decreases n
  {
    if t.Due() {
      path := PathOf(env, Fire(env, t), n - 1);
      path := [t] + path;
    } else {
      path := [t];
    }
  }

  class Scheduler {
    const main: EventStore       // first, eventPool
    const shared: EventStore     // tsFirst, tsLast, eventTsPool: guarded by externalEventSection
    var hasTsEvents: bool
    var slicelength: int
    var downcount: int
    var globalTimer: int
    var idledCycles: int
    var log: seq<Firing>

    ghost function State(): Timing
      reads this, main.list, shared.list
    {
      Timing(main.list.events, shared.list.events, hasTsEvents, slicelength, downcount, globalTimer, idledCycles, log)
    }

    ghost function Repr(): set<object>
      reads this, main, shared
    {
      {this} + main.repr + shared.repr
    }

    // Every node is kept; the others are new.
    twostate predicate Grows()
      reads this, main, shared
    {
      old(Repr()) <= Repr() && forall o :: o in Repr() ==> o in old(Repr()) || fresh(o)
    }

    ghost predicate Valid()
      reads this, main, shared, Repr()
    {
      && main.Valid() == shared.Valid() == true // one fact each, not split further
      && main.list.Ordered() == true
      && main.repr !! shared.repr && this !in main.repr + shared.repr
      && !main.list.hasTail && shared.list.hasTail
      && |shared.list.events| <= shared.lent
    }

    constructor Init()
      ensures Valid() && fresh(Repr())
      ensures State() == Timing([], [], false, INITIAL_SLICE_LENGTH, INITIAL_SLICE_LENGTH, 0, 0, [])
    {
      main := new EventStore(false);
      shared := new EventStore(true);
      hasTsEvents := false;
      slicelength, downcount := INITIAL_SLICE_LENGTH, INITIAL_SLICE_LENGTH;
      globalTimer, idledCycles, log := 0, 0, [];
    }

    function GetTicks(): int
      reads this
    {
      globalTimer + slicelength - downcount
    }

    method ScheduleEvent(cyclesIntoFuture: int, kind: int, userdata: int)
      requires Valid()
      modifies Repr()
      ensures Valid() && Grows()
      ensures State() == Act(old(State()), Schedule(cyclesIntoFuture, kind, userdata))
    {
      main.AddNew(Ev(GetTicks() + cyclesIntoFuture, userdata, kind));
    }

    method ScheduleEventThreadsafe(cyclesIntoFuture: int, kind: int, userdata: int)
      requires Valid()
      modifies Repr()
      ensures Valid() && Grows()
      ensures State() == Act(old(State()), ScheduleTs(cyclesIntoFuture, kind, userdata))
    {
      var e := Ev(GetTicks() + cyclesIntoFuture, userdata, kind);
      ghost var t := State();
      ghost var t' := Act(t, ScheduleTs(cyclesIntoFuture, kind, userdata));
      assert t' == t.(ts := t.ts + [e], hasTs := true);
      shared.AppendNew(e);
      hasTsEvents := true;
    }

    // UnscheduleEvent, and RemoveEvent, which drops the result.
    method UnscheduleEvent(sel: Selector) returns (cyclesLeft: int)
      requires Valid()
      modifies Repr()
      ensures Valid() && Repr() == old(Repr())
      ensures State() == Act(old(State()), Unschedule(sel))
      ensures var p := LastPicked(old(main.list.events), sel); cyclesLeft == if p.0 then p.1 - old(GetTicks()) else 0
    {
      WithoutSorted(main.list.events, sel);
      var count;
      cyclesLeft, count := main.Remove(sel, GetTicks());
    }

    // UnscheduleThreadsafeEvent, and RemoveThreadsafeEvent, which drops the result.
    method UnscheduleThreadsafeEvent(sel: Selector) returns (cyclesLeft: int)
      requires Valid()
      modifies Repr()
      ensures Valid() && Repr() == old(Repr())
      ensures State() == Act(old(State()), UnscheduleTs(sel))
      ensures var p := LastPicked(old(shared.list.events), sel); cyclesLeft == if p.0 then p.1 - old(GetTicks()) else 0
    {
      var count;
      cyclesLeft, count := shared.Remove(sel, GetTicks());
    }

    method ForceCheck()
      requires Valid()
      modifies this
      ensures Valid() && Repr() == old(Repr()) && State() == TimingModel.ForceCheck(old(State()))
    {
      var cyclesExecuted := slicelength - downcount;
      globalTimer := globalTimer + cyclesExecuted;
      downcount := 0;
      slicelength := 0;
    }

    method CyclesToIdle(maxIdle: int) returns (cyclesDown: int)
      requires Valid()
      ensures cyclesDown == IdleCycles(State(), maxIdle)
    {
      cyclesDown := downcount;
      if maxIdle != 0 && cyclesDown > maxIdle { cyclesDown := maxIdle; }
      if main.list.first != null && cyclesDown > 0 {
        var cyclesExecuted := slicelength - downcount;
        var cyclesNextEvent := ToS32(main.list.first.base.time - globalTimer);
        if cyclesNextEvent < cyclesExecuted + cyclesDown {
          cyclesDown := cyclesNextEvent - cyclesExecuted;
          if cyclesDown < 0 { cyclesDown := 0; }
        }
      }
    }

    method Idle(maxIdle: int)
      requires Valid()
      modifies this
      ensures Valid() && Repr() == old(Repr()) && State() == TimingModel.Idle(old(State()), maxIdle)
    {
      var cyclesDown := CyclesToIdle(maxIdle);
      idledCycles := idledCycles + cyclesDown;
      downcount := downcount - cyclesDown;
      if downcount == 0 { downcount := -1; }
    }

    method DrainOne()
      requires Valid() && shared.list.first != null
      modifies Repr()
      ensures Valid() && Repr() == old(Repr())
      ensures State() == old(State()).(queue := Insert(old(main.list.events), old(shared.list.events)[0]),
                                       ts := old(shared.list.events)[1..])
    {
      ghost var m, t := main.repr, shared.repr;
      var ev := shared.PopHead();
      main.Add(ev);
      assert main.repr == m + {ev} && shared.repr == t - {ev};
    }

    // The drain loop of MoveEvents.
    method DrainShared()
      requires Valid()
      modifies Repr()
      ensures Valid() && Repr() == old(Repr())
      ensures State() == old(State()).(queue := InsertAll(old(main.list.events), old(shared.list.events)), ts := [])
    {
      while shared.list.first != null
        invariant Valid() && Repr() == old(Repr())
        invariant InsertAll(main.list.events, shared.list.events)
            == InsertAll(old(main.list.events), old(shared.list.events))
        invariant State() == old(State()).(queue := main.list.events, ts := shared.list.events)
        decreases |shared.list.events|
      {
        DrainOne();
      }
    }

    method RepayOne()
      requires Valid() && shared.lent > |shared.list.events| && main.pool.head != null
      modifies Repr()
      ensures Valid() && Repr() == old(Repr()) && State() == old(State())
      ensures shared.lent == old(shared.lent) - 1
    {
      ghost var m, t := main.repr, shared.repr;
      var ev := main.TakeFree();
      shared.Free(ev);
      assert main.repr == m - {ev} && shared.repr == t + {ev};
    }

    // Its second loop: free nodes pay back what the shared pool lent.
    method RepaySharedPool()
      requires Valid() && shared.list.events == []
      modifies Repr()
      ensures Valid() && Repr() == old(Repr()) && State() == old(State())
      ensures shared.lent == 0 || main.pool.head == null
    {
      while shared.lent > 0 && main.pool.head != null
        invariant Valid() && Repr() == old(Repr()) && State() == old(State())
        decreases shared.lent
      {
        RepayOne();
      }
    }

    method MoveEvents()
      requires Valid()
      modifies Repr()
      ensures Valid() && Repr() == old(Repr()) && State() == TimingModel.MoveEvents(old(State()))
    {
      hasTsEvents := false;
      DrainShared();
      RepaySharedPool();
    }

    // One scheduler call made by a callback.
    method RunAction(a: Action)
      requires Valid()
      modifies Repr()
      ensures Valid() && Grows()
      ensures State() == Act(old(State()), a)
    {
      match a
      case Eat(n) => downcount := downcount - n;
      case Schedule(d, k, u) => ScheduleEvent(d, k, u);
      case ScheduleTs(d, k, u) => ScheduleEventThreadsafe(d, k, u);
      case Unschedule(sel) => var _ := UnscheduleEvent(sel);
      case UnscheduleTs(sel) => var _ := UnscheduleThreadsafeEvent(sel);
      case Recheck => ForceCheck();
    }

    method RunCallback(acts: seq<Action>)
      requires Valid()
      modifies Repr()
      ensures Valid() && Grows()
      ensures State() == Acts(old(State()), acts)
    {
      var i := 0;
      assert acts[0..] == acts;
      while i < |acts|
        invariant 0 <= i <= |acts|
        invariant Valid() && Grows()
        invariant Acts(State(), acts[i..]) == Acts(old(State()), acts)
      {
        assert acts[i..][1..] == acts[i + 1..];
        RunAction(acts[i]);
        i := i + 1;
      }
    }

    method FreeEvent(ev: Event)
      requires Valid() && ev.home == null && ev !in Repr()
      modifies main.repr, ev
      ensures Valid() && Repr() == old(Repr()) + {ev} && State() == old(State())
    {
      main.Free(ev);
    }

    method TakeHead() returns (evt: Event)
      requires Valid() && main.list.first != null
      modifies main.repr
      ensures Valid() && State() == old(State()).(queue := old(main.list.events)[1..])
      ensures evt.home == null && evt in old(Repr()) && Repr() == old(Repr()) - {evt}
      ensures evt.base == old(main.list.events)[0]
    {
      ghost var m := main.repr;
      evt := main.PopHead();
      assert main.repr == m - {evt} && evt !in shared.repr;
    }

    // Takes the head event off the queue and notes that its callback is about to run.
    method PopDue() returns (evt: Event, late: int)
      requires Valid() && State().Due()
      modifies this, main.repr
      ensures Valid() && State() == Pop(old(State()))
      ensures evt.home == null && evt in old(Repr()) && Repr() == old(Repr()) - {evt}
      ensures evt.base == old(main.list.events)[0] && late == ToS32(old(GetTicks()) - evt.base.time)
    {
      evt := TakeHead();
      late := ToS32(GetTicks() - evt.base.time);
      log := log + [Firing(evt.base, GetTicks(), late)];
    }

    // One turn of the loop of ProcessFifoWaitEvents: the node is in no list while its callback
    // runs and goes to the pool afterwards.
    method FireHead(env: Callbacks)
      requires Valid() && State().Due()
      modifies Repr()
      ensures Valid() && Grows()
      ensures State() == Fire(env, old(State()))
    {
      ghost var t := State();
      var k := |log|;
      var evt, late := PopDue();
      ghost var r := Repr();
      var acts := env(k, evt.base, late);
      assert Fire(env, t) == Acts(State(), acts);
      RunCallback(acts);
      assert evt !in r && evt !in Repr();
      FreeEvent(evt);
    }

    method HeadIsDue() returns (due: bool)
      requires Valid()
      ensures due == State().Due()
    {
      due := main.list.first != null && main.list.first.base.time <= GetTicks();
    }

    method ProcessFifoWaitEvents(env: Callbacks, ghost n: nat)
      requires Valid() && !Process(env, State(), n).Due()
      modifies Repr()
      ensures Valid() && Grows() && State() == Process(env, old(State()), n)
    {
      ghost var path := PathOf(env, State(), n);
      ProcessAlong(env, path);
    }

    // The loop of ProcessFifoWaitEvents.
    method ProcessAlong(env: Callbacks, ghost path: seq<Timing>)
      requires Valid() && IsPath(env, path) && State() == path[0]
      modifies Repr()
      ensures Valid() && Grows() && State() == path[|path| - 1]
    {
      ghost var k := 0;
      var due := HeadIsDue();
      while due
        invariant 0 <= k < |path|
        invariant Valid() && Grows() && State() == path[k] && due == path[k].Due()
        decreases |path| - k
      {
        FireHead(env);
        k := k + 1;
        due := HeadIsDue();
      }
    }

    method Advance(env: Callbacks, ghost n: nat)
      requires Valid() && !Process(env, AdvanceStart(State()), n).Due()
      modifies Repr()
      ensures Valid() && Grows()
      ensures State() == TimingModel.Advance(env, old(State()), n)
    {
      ghost var t := State();
      var cyclesExecuted := slicelength - downcount;
      globalTimer := globalTimer + cyclesExecuted;
      downcount := slicelength;
      if hasTsEvents { MoveEvents(); }
      assert State() == AdvanceStart(t);
      ProcessFifoWaitEvents(env, n);
      EndAdvance();
    }

    // The end of Advance: the next slice.
    method EndAdvance()
      requires Valid()
      modifies this
      ensures Valid() && Repr() == old(Repr()) && State() == AdvanceEnd(old(State()))
    {
      if main.list.first == null {
        if slicelength < 10000 {
          slicelength := slicelength + 10000;
          downcount := downcount + slicelength;
        }
      } else {
        var target := ToS32(main.list.first.base.time - globalTimer);
        if target > MAX_SLICE_LENGTH { target := MAX_SLICE_LENGTH; }
        var diff := target - slicelength;
        slicelength := slicelength + diff;
        downcount := downcount + diff;
      }
    }

    method FreeHead()
      requires Valid() && main.list.first != null
      modifies Repr()
      ensures Valid() && Repr() == old(Repr())
      ensures State() == old(State()).(queue := old(main.list.events)[1..])
    {
      ghost var m := main.repr;
      var ev := main.PopHead();
      main.Free(ev);
      assert main.repr == m;
    }

    method ClearPendingEvents()
      requires Valid()
      modifies Repr()
      ensures Valid() && Repr() == old(Repr()) && State() == old(State()).(queue := [])
    {
      while main.list.first != null
        invariant Valid() && Repr() == old(Repr())
        invariant State() == old(State()).(queue := main.list.events)
        decreases |main.list.events|
      {
        FreeHead();
      }
    }

    // Shutdown: every node goes to a pool and every pool node is deleted.  UnregisterAllEvents
    // clears the callback table, which is not part of this state.
    method Shutdown() returns (ghost deleted: seq<Event>)
      requires Valid()
      modifies Repr()
      ensures Valid() && State().queue == State().ts == []
      ensures main.list.nodes == shared.list.nodes == [] && main.pool.nodes == shared.pool.nodes == []
      ensures forall i, j :: 0 <= i < j < |deleted| ==> deleted[i] != deleted[j]
      ensures forall n: Event :: n in old(Repr()) <==> n in deleted
    {
      MoveEvents();
      ClearPendingEvents();
      deleted := DeletePools();
    }

    method DeletePools() returns (ghost deleted: seq<Event>)
      requires Valid() && State().queue == State().ts == []
      modifies Repr()
      ensures Valid() && State().queue == State().ts == []
      ensures main.list.nodes == shared.list.nodes == [] && main.pool.nodes == shared.pool.nodes == []
      ensures forall i, j :: 0 <= i < j < |deleted| ==> deleted[i] != deleted[j]
      ensures forall n: Event :: n in old(Repr()) <==> n in deleted
    {
      ghost var a := DeletePool(main);
      ghost var b := DeletePool(shared);
      assert forall i :: 0 <= i < |a| ==> a[i] in a && a[i] in old(main.repr);
      assert forall i :: 0 <= i < |b| ==> b[i] in b && b[i] in old(shared.repr);
      deleted := a + b;
    }
  }

  // A loop of Shutdown over one pool.
  method DeletePool(store: EventStore) returns (ghost deleted: seq<Event>)
    requires store.Valid() && store.list.first == null
    modifies store.repr
    ensures store.Valid() && store.pool.nodes == [] && store.list.nodes == []
    ensures store.list.events == old(store.list.events) && store.lent == old(store.lent)
    ensures store.repr <= old(store.repr)
    ensures forall i, j :: 0 <= i < j < |deleted| ==> deleted[i] != deleted[j]
    ensures forall n: Event :: n in old(store.repr) <==> n in deleted
  {
    deleted := [];
    while store.pool.head != null
      invariant store.Valid() && store.list.first == null && store.list.events == old(store.list.events)
      invariant store.lent == old(store.lent)
      invariant store.repr <= old(store.repr)
      invariant forall i, j :: 0 <= i < j < |deleted| ==> deleted[i] != deleted[j]
      invariant forall n: Event :: n in old(store.repr) <==> n in store.repr || n in deleted
      invariant forall n :: n in deleted ==> n !in store.repr
      decreases |store.pool.nodes|
    {
      var ev := store.TakeFree();
      deleted := deleted + [ev];
    }
  }
}
