/** The scheduler of Core/CoreTiming.cpp as a state machine over values.

    The class in CoreTiming.dfy is proved to move through exactly these states.  A callback is
    an oracle: `env(k, e, late)` is the list of scheduler calls made by the k-th callback run,
    so a statement about every `env` covers every deterministic or outside-driven behaviour.
    The log of callback runs is the scheduler's observable output. */
module TimingModel {
  import opened Words
  import opened EventQueue

  const MAX_SLICE_LENGTH := 100000000
  const INITIAL_SLICE_LENGTH := 20000

  datatype Firing = Firing(ev: Ev, now: int, late: int)

  // What a callback may do to the scheduler.
  datatype Action =
    | Eat(cycles: nat)
    | Schedule(delay: int, kind: int, userdata: int)
    | ScheduleTs(delay: int, kind: int, userdata: int)
    | Unschedule(sel: Selector)
    | UnscheduleTs(sel: Selector)
    | Recheck

  type Callbacks = (nat, Ev, int) -> seq<Action>

  datatype Timing = Timing(queue: seq<Ev>, ts: seq<Ev>, hasTs: bool,
                           slice: int, downcount: int, globalTimer: int, idled: int,
                           log: seq<Firing>)
  {
    // GetTicks
    function Ticks(): int { globalTimer + slice - downcount }

    predicate Due() { queue != [] && queue[0].time <= Ticks() }
  }

  function ForceCheck(t: Timing): Timing {
    t.(globalTimer := t.globalTimer + (t.slice - t.downcount), downcount := 0, slice := 0)
  }

  function Act(t: Timing, a: Action): Timing {
    match a
    case Eat(n) => t.(downcount := t.downcount - n)
    case Schedule(d, k, u) => t.(queue := Insert(t.queue, Ev(t.Ticks() + d, u, k)))
    case ScheduleTs(d, k, u) => t.(ts := t.ts + [Ev(t.Ticks() + d, u, k)], hasTs := true)
    case Unschedule(sel) => t.(queue := Without(t.queue, sel))
    case UnscheduleTs(sel) => t.(ts := Without(t.ts, sel))
    case Recheck => ForceCheck(t)
  }

  function Acts(t: Timing, acts: seq<Action>): Timing
    decreases acts
  {
    if acts == [] then t else Acts(Act(t, acts[0]), acts[1..])
  }

  function MoveEvents(t: Timing): Timing {
    t.(queue := InsertAll(t.queue, t.ts), ts := [], hasTs := false)
  }

  // One turn of the loop of ProcessFifoWaitEvents.
  function Pop(t: Timing): Timing
    requires t.Due()
  {
    t.(queue := t.queue[1..],
       log := t.log + [Firing(t.queue[0], t.Ticks(), ToS32(t.Ticks() - t.queue[0].time))])
  }

  function Fire(env: Callbacks, t: Timing): Timing
    requires t.Due()
  {
    Acts(Pop(t), env(|t.log|, t.queue[0], ToS32(t.Ticks() - t.queue[0].time)))
  }

  // At most n turns of that loop.
  function Process(env: Callbacks, t: Timing, n: nat): Timing
    decreases n
  {
    if !t.Due() || n == 0 then t else Process(env, Fire(env, t), n - 1)
  }

  function AdvanceStart(t: Timing): Timing {
    var t1 := t.(globalTimer := t.globalTimer + (t.slice - t.downcount), downcount := t.slice);
    if t1.hasTs then MoveEvents(t1) else t1
  }

  function AdvanceEnd(t: Timing): Timing {
    if t.queue == [] then
      if t.slice < 10000 then t.(slice := t.slice + 10000, downcount := t.downcount + (t.slice + 10000))
      else t
    else
      var wanted := ToS32(t.queue[0].time - t.globalTimer);
      var target := if wanted > MAX_SLICE_LENGTH then MAX_SLICE_LENGTH else wanted;
      var diff := target - t.slice;
      t.(slice := t.slice + diff, downcount := t.downcount + diff)
  }

  function Advance(env: Callbacks, t: Timing, n: nat): Timing {
    AdvanceEnd(Process(env, AdvanceStart(t), n))
  }

  // What Idle would book without looking at the queue.
  function Cap(t: Timing, maxIdle: int): int { if maxIdle != 0 && t.downcount > maxIdle then maxIdle else t.downcount }

  function IdleCycles(t: Timing, maxIdle: int): int {
    var down := Cap(t, maxIdle);
    if t.queue != [] && down > 0 then
      var executed := t.slice - t.downcount;
      var next := ToS32(t.queue[0].time - t.globalTimer);
      if next < executed + down then (if next - executed < 0 then 0 else next - executed) else down
    else down
  }

  function Idle(t: Timing, maxIdle: int): Timing {
    var c := IdleCycles(t, maxIdle);
    var down := t.downcount - c;
    t.(idled := t.idled + c, downcount := if down == 0 then -1 else down)
  }

  // ---------------------------------------------------------------- the clock

  // The cycles eaten by callback runs from..|log|.
  function EatenIn(acts: seq<Action>): nat {
    if acts == [] then 0 else (if acts[0].Eat? then acts[0].cycles else 0) + EatenIn(acts[1..])
  }

  function Eaten(env: Callbacks, log: seq<Firing>, from: nat): nat
    decreases |log| - from
  {
    if from >= |log| then 0 else EatenIn(env(from, log[from].ev, log[from].late)) + Eaten(env, log, from + 1)
  }

  lemma {:induction false} ActsKeepClock(t: Timing, acts: seq<Action>)
    ensures Acts(t, acts).Ticks() == t.Ticks() + EatenIn(acts)
    ensures Acts(t, acts).log == t.log
    ensures t.downcount <= t.slice ==> Acts(t, acts).downcount <= Acts(t, acts).slice
    decreases acts
  {
    if acts != [] { ActsKeepClock(Act(t, acts[0]), acts[1..]); }
  }

  lemma {:induction false} EatenExtends(env: Callbacks, log: seq<Firing>, more: seq<Firing>, from: nat)
    requires from <= |log|
    ensures Eaten(env, log + more, from) == Eaten(env, log, from) + Eaten(env, log + more, |log|)
    decreases |log| - from
  {
    if from < |log| {
      assert (log + more)[from] == log[from];
      EatenExtends(env, log, more, from + 1);
    }
  }

  // The processing loop only appends to the log, and moves the clock by what the callbacks ate.
  lemma {:induction false} ProcessKeepsClock(env: Callbacks, t: Timing, n: nat)
    ensures var t' := Process(env, t, n);
      t.log <= t'.log && t'.Ticks() == t.Ticks() + Eaten(env, t'.log, |t.log|)
      && (t.downcount <= t.slice ==> t'.downcount <= t'.slice)
    decreases n
  {
    if t.Due() && n > 0 {
      var f := Fire(env, t);
      ActsKeepClock(Pop(t), env(|t.log|, t.queue[0], ToS32(t.Ticks() - t.queue[0].time)));
      ProcessKeepsClock(env, f, n - 1);
      var t' := Process(env, t, n);
      assert t'.log[|t.log|] == f.log[|t.log|];
      assert Eaten(env, t'.log, |t.log|)
          == EatenIn(env(|t.log|, t'.log[|t.log|].ev, t'.log[|t.log|].late)) + Eaten(env, t'.log, |t.log| + 1);
    }
  }

  // What the empty-queue branch of Advance takes from the clock.
  function EmptyQueueLoss(t: Timing): int {
    if t.queue == [] && t.slice < 10000 then t.slice else 0
  }

  // Advance moves GetTicks by exactly what the callbacks ate, less the empty-queue loss.
  lemma {:induction false} AdvanceKeepsTicks(env: Callbacks, t: Timing, n: nat)
    ensures var p := Process(env, AdvanceStart(t), n); var t' := Advance(env, t, n);
      t.log <= t'.log && t'.Ticks() == t.Ticks() + Eaten(env, t'.log, |t.log|) - EmptyQueueLoss(p)
  {
    ProcessKeepsClock(env, AdvanceStart(t), n);
  }

  // With no events at all, Advance leaves the clock alone exactly when the slice was zero or
  // already at least 10000 cycles long.
  lemma EmptyAdvanceKeepsTicks(env: Callbacks, t: Timing, n: nat)
    requires t.queue == [] && t.ts == []
    ensures Advance(env, t, n).Ticks() == t.Ticks() <==> t.slice == 0 || t.slice >= 10000
  {
    assert Process(env, AdvanceStart(t), n) == AdvanceStart(t);
  }

  lemma EmptyAdvanceLosesTicks(env: Callbacks)
    ensures var t := Timing([], [], false, 1, 0, 0, 0, []);
      t.Ticks() == 1 && Advance(env, t, 0).Ticks() == 0
  {
    assert AdvanceStart(Timing([], [], false, 1, 0, 0, 0, [])).Ticks() == 1;
  }

  // After an Advance that found the queue at rest and not empty, the new slice ends no later
  // than the head event; it is open (downcount positive) exactly when the callbacks left fewer
  // than MAX_SLICE_LENGTH cycles on the clock and the distance to the head event, cut to 32
  // bits, is still beyond those cycles.
  lemma {:induction false} AdvanceOpensSlice(env: Callbacks, t: Timing, n: nat)
    requires var p := Process(env, AdvanceStart(t), n); p.queue != [] && !p.Due()
    ensures var p := Process(env, AdvanceStart(t), n); var t' := Advance(env, t, n);
      var eaten := p.Ticks() - p.globalTimer; var distance := t'.queue[0].time - t'.globalTimer;
      && 0 <= eaten < distance
      && t'.queue == p.queue && t'.Ticks() == p.Ticks()
      && t'.globalTimer + t'.slice <= t'.queue[0].time
      && (distance <= MAX_SLICE_LENGTH ==> t'.globalTimer + t'.slice == t'.queue[0].time)
      && (distance < 0x8000_0000 ==> (t'.downcount > 0 <==> eaten < MAX_SLICE_LENGTH || distance <= MAX_SLICE_LENGTH))
      && (distance >= 0x8000_0000 ==> (t'.downcount > 0 <==> eaten < MAX_SLICE_LENGTH && eaten < ToS32(distance)))
  {
    ProcessKeepsClock(env, AdvanceStart(t), n);
  }

  // A head event 2^31 cycles away leaves a slice of -2^31 cycles.
  lemma FarEventClosesSlice(env: Callbacks)
    ensures var t := Timing([Ev(0x8000_0000, 0, 0)], [], false, 0, 0, 0, 0, []);
      Advance(env, t, 0).downcount == -0x8000_0000
  {
    var t := Timing([Ev(0x8000_0000, 0, 0)], [], false, 0, 0, 0, 0, []);
    assert Process(env, AdvanceStart(t), 0) == AdvanceStart(t) == t;
    assert ToS32(0x8000_0000) == -0x8000_0000;
  }

  // Idle moves GetTicks by the cycles it books plus at most one, and never backwards exactly
  // when the downcount is at least -1 and the cap is not below it by being negative.
  lemma IdleMovesClock(t: Timing, maxIdle: int)
    ensures var t' := Idle(t, maxIdle); var booked := t'.idled - t.idled;
      && t'.Ticks() == t.Ticks() + booked + (if t.downcount == booked then 1 else 0)
      && (t'.Ticks() >= t.Ticks() <==> t.downcount >= -1 && (maxIdle >= 0 || maxIdle >= t.downcount))
      && t'.downcount != 0
  {}

  // With a downcount of -2 the clock goes back by a cycle.
  lemma IdleGoesBack()
    ensures var t := Timing([], [], false, 0, -2, 0, 0, []); t.Ticks() == 2 && Idle(t, 0).Ticks() == 1
  {}

  // Idle passes neither the present nor the head event by more than its one-cycle nudge, for
  // every head event that is less than 2^31 cycles behind the timer.
  lemma IdleStopsAtHead(t: Timing, maxIdle: int)
    requires t.queue != [] && t.queue[0].time - t.globalTimer >= -0x8000_0000
    ensures var t' := Idle(t, maxIdle);
      t'.Ticks() <= (if t.Ticks() < t.queue[0].time then t.queue[0].time else t.Ticks()) + 1
  {}

  // The cycles Idle sees left before the head event.
  function Room(t: Timing): int
    requires t.queue != []
  {
    ToS32(t.queue[0].time - t.globalTimer) - (t.slice - t.downcount)
  }

  // For a head event that is due, at any distance: Idle passes the present by no more than its
  // nudge exactly when it has nothing to book or sees no room, or books one cycle and gives no
  // nudge.  Room is seen before a due event only where the cast turns its distance round.
  lemma IdleStaysAtDueHead(t: Timing, maxIdle: int)
    requires t.queue != [] && t.queue[0].time <= t.Ticks()
    ensures Idle(t, maxIdle).Ticks() <= t.Ticks() + 1 <==>
            Cap(t, maxIdle) <= 0 || Room(t) <= 0 || (t.downcount != 1 && (Cap(t, maxIdle) == 1 || Room(t) == 1))
  {}

  lemma IdleOvershootsAncientHead()
    ensures var t := Timing([Ev(-0x8000_0001, 0, 0)], [], false, 100, 100, 0, 0, []);
      Idle(t, 0).Ticks() == 101
  {
    var t := Timing([Ev(-0x8000_0001, 0, 0)], [], false, 100, 100, 0, 0, []);
    assert t.queue[0].time - t.globalTimer == -0x8000_0001;
    assert ToS32(-0x8000_0001) == 0x7FFF_FFFF;
    assert IdleCycles(t, 0) == 100;
  }
}
