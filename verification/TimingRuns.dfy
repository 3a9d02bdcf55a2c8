/** Whole runs of the scheduler: what the clock shows, which callbacks fire and when. */
module TimingRuns {
  import opened Words
  import opened EventQueue
  import opened TimingModel

  // What the CPU thread does between two looks at the clock.
  datatype Step =
    | Execute(cycles: nat)        // the JIT burns cycles off downcount
    | IdleFor(maxIdle: int)
    | Call(action: Action)        // a scheduler call from emulated code
    | RunAdvance(firings: nat)    // Advance, with a bound on the callbacks it runs

  function Next(env: Callbacks, t: Timing, s: Step): Timing {
    match s
    case Execute(n) => t.(downcount := t.downcount - n)
    case IdleFor(m) => Idle(t, m)
    case Call(a) => Act(t, a)
    case RunAdvance(n) => Advance(env, t, n)
  }

  function Run(env: Callbacks, t: Timing, steps: seq<Step>): Timing
    decreases |steps|
  {
    if steps == [] then t else Run(env, Next(env, t, steps[0]), steps[1..])
  }

  // ---------------------------------------------------------------- the clock over runs

  // Cycles executed by the JIT or eaten by emulated code during the run.
  function Executed(steps: seq<Step>): nat {
    if steps == [] then 0
    else (match steps[0] case Execute(n) => n case Call(Eat(n)) => n case _ => 0) + Executed(steps[1..])
  }

  // How often Idle used its one-cycle nudge.
  function Nudges(env: Callbacks, t: Timing, steps: seq<Step>): nat
    decreases |steps|
  {
    if steps == [] then 0
    else (if steps[0].IdleFor? && t.downcount == IdleCycles(t, steps[0].maxIdle) then 1 else 0)
         + Nudges(env, Next(env, t, steps[0]), steps[1..])
  }

  // What the empty-queue branch of Advance takes from the clock in one step, and over a run.
  function Loss(env: Callbacks, t: Timing, s: Step): int {
    if s.RunAdvance? then EmptyQueueLoss(Process(env, AdvanceStart(t), s.firings)) else 0
  }

  function Losses(env: Callbacks, t: Timing, steps: seq<Step>): int
    decreases |steps|
  {
    if steps == [] then 0 else Loss(env, t, steps[0]) + Losses(env, Next(env, t, steps[0]), steps[1..])
  }

  // Over every run GetTicks moves by exactly the cycles executed, idled or eaten by callbacks,
  // plus Idle's nudges, less what Advance loses on an empty queue.
  lemma {:induction false} TicksConserved(env: Callbacks, t: Timing, steps: seq<Step>)
    ensures var t' := Run(env, t, steps);
      && t.log <= t'.log
      && t'.Ticks() == t.Ticks() + Executed(steps) + (t'.idled - t.idled)
                       + Eaten(env, t'.log, |t.log|) + Nudges(env, t, steps) - Losses(env, t, steps)
    decreases |steps|
  {
    if steps != [] {
      var m := Next(env, t, steps[0]);
      StepKeepsTicks(env, t, steps[0]);
      TicksConserved(env, m, steps[1..]);
      var t' := Run(env, t, steps);
      assert t'.log == m.log + t'.log[|m.log|..];
      assert m.log + [] == m.log;
      EatenExtends(env, m.log, t'.log[|m.log|..], |t.log|);
    }
  }

  lemma {:induction false} StepKeepsTicks(env: Callbacks, t: Timing, s: Step)
    ensures var m := Next(env, t, s);
      && t.log <= m.log
      && m.Ticks() == t.Ticks() + Executed([s]) + (m.idled - t.idled) + Eaten(env, m.log, |t.log|)
                      + (if s.IdleFor? && t.downcount == IdleCycles(t, s.maxIdle) then 1 else 0) - Loss(env, t, s)
  {
    assert [s][1..] == [];
    match s
    case Execute(_) =>
    case IdleFor(m) => IdleMovesClock(t, m);
    case Call(a) => assert Acts(t, [a]) == Act(t, a) by { assert [a][1..] == []; }
    case RunAdvance(n) =>
      AdvanceKeepsTicks(env, t, n);
      ProcessKeepsIdled(env, AdvanceStart(t), n);
  }

  lemma {:induction false} ProcessKeepsIdled(env: Callbacks, t: Timing, n: nat)
    ensures Process(env, t, n).idled == t.idled
    decreases n
  {
    if t.Due() && n > 0 {
      ActsKeepIdled(Pop(t), env(|t.log|, t.queue[0], ToS32(t.Ticks() - t.queue[0].time)));
      ProcessKeepsIdled(env, Fire(env, t), n - 1);
    }
  }

  lemma {:induction false} ActsKeepIdled(t: Timing, acts: seq<Action>)
    ensures Acts(t, acts).idled == t.idled
    decreases acts
  {
    if acts != [] { ActsKeepIdled(Act(t, acts[0]), acts[1..]); }
  }

  // Idle is called only with a downcount of at least -1 and no negative cap.
  ghost predicate IdlesForward(env: Callbacks, t: Timing, steps: seq<Step>)
    decreases |steps|
  {
    steps != [] ==>
      && (steps[0].IdleFor? ==> t.downcount >= -1 && steps[0].maxIdle >= 0)
      && IdlesForward(env, Next(env, t, steps[0]), steps[1..])
  }

  lemma {:induction false} IdlesGain(env: Callbacks, t: Timing, steps: seq<Step>)
    requires IdlesForward(env, t, steps)
    ensures Run(env, t, steps).idled - t.idled + Nudges(env, t, steps) >= 0
    decreases |steps|
  {
    if steps != [] {
      match steps[0] {
        case IdleFor(m) => IdleMovesClock(t, m);
        case RunAdvance(n) => ProcessKeepsIdled(env, AdvanceStart(t), n);
        case _ =>
      }
      IdlesGain(env, Next(env, t, steps[0]), steps[1..]);
    }
  }

  // GetTicks goes back by no more than the losses on an empty queue.
  lemma TicksNeverGoBack(env: Callbacks, t: Timing, steps: seq<Step>)
    requires IdlesForward(env, t, steps)
    ensures Run(env, t, steps).Ticks() >= t.Ticks() - Losses(env, t, steps)
  {
    TicksConserved(env, t, steps);
    IdlesGain(env, t, steps);
  }

  // ---------------------------------------------------------------- which callbacks fire

  // The number of events at the head of the queue that are due.
  function DueCount(q: seq<Ev>, now: int): (n: nat)
    ensures n <= |q|
  {
    if q == [] || q[0].time > now then 0 else 1 + DueCount(q[1..], now)
  }

  lemma {:induction false} DueCountMeans(q: seq<Ev>, now: int)
    ensures var n := DueCount(q, now);
      (forall i :: 0 <= i < n ==> q[i].time <= now) && (n < |q| ==> q[n].time > now)
  {
    if q != [] && q[0].time <= now { DueCountMeans(q[1..], now); }
  }

  // Callbacks that eat no cycles and schedule strictly into the future.
  predicate PunctualAct(a: Action) { !a.Eat? && (a.Schedule? ==> a.delay > 0) }

  ghost predicate Punctual(env: Callbacks) {
    forall k: nat, e: Ev, late: int, i: nat :: i < |env(k, e, late)| ==> PunctualAct(env(k, e, late)[i])
  }

  lemma {:induction false} DueCountInsert(q: seq<Ev>, e: Ev, now: int)
    requires e.time > now
    ensures var n := DueCount(q, now); var r := Insert(q, e);
      DueCount(r, now) == n && r[..n] == q[..n] && r[n..] == Insert(q[n..], e)
  {
    if q != [] && q[0].time <= now {
      var n := DueCount(q[1..], now);
      var r := Insert(q[1..], e);
      DueCountInsert(q[1..], e, now);
      assert ([q[0]] + r)[1..] == r;
      assert ([q[0]] + r)[..n + 1] == [q[0]] + r[..n] && q[..n + 1] == [q[0]] + q[1..][..n];
    }
  }

  lemma {:induction false} DueCountWithout(q: seq<Ev>, sel: Selector, now: int)
    requires Sorted(q)
    ensures DueCount(Without(q, sel), now) <= DueCount(q, now)
  {
    if q != [] {
      var w := Without(q[1..], sel);
      DueCountWithout(q[1..], sel, now);
      if sel.Picks(q[0]) {
        assert Without(q, sel) == w;
        if q[0].time > now && w != [] {
          WithoutStable(q[1..], sel);
          assert w[0] in q[1..];
        }
      } else {
        assert Without(q, sel)[1..] == w;
      }
    }
  }

  lemma {:induction false} PunctualActs(t: Timing, acts: seq<Action>)
    requires Sorted(t.queue) && forall i :: 0 <= i < |acts| ==> PunctualAct(acts[i])
    ensures var t' := Acts(t, acts);
      t'.Ticks() == t.Ticks() && Sorted(t'.queue) && DueCount(t'.queue, t.Ticks()) <= DueCount(t.queue, t.Ticks())
    decreases acts
  {
    if acts != [] {
      var a := acts[0];
      assert PunctualAct(a);
      if a.Schedule? {
        var e := Ev(t.Ticks() + a.delay, a.userdata, a.kind);
        InsertStable(t.queue, e);
        DueCountInsert(t.queue, e, t.Ticks());
      }
      if a.Unschedule? {
        WithoutStable(t.queue, a.sel);
        DueCountWithout(t.queue, a.sel, t.Ticks());
      }
      PunctualActs(Act(t, a), acts[1..]);
    }
  }

  // The processing loop terminates for every punctual callback, after at most one turn for
  // each event that was due when it began.
  lemma {:induction false} PunctualLoopRests(env: Callbacks, t: Timing, n: nat)
    requires Punctual(env) && Sorted(t.queue) && DueCount(t.queue, t.Ticks()) <= n
    ensures !Process(env, t, n).Due()
    decreases n
  {
    if t.Due() {
      PunctualActs(Pop(t), env(|t.log|, t.queue[0], ToS32(t.Ticks() - t.queue[0].time)));
      PunctualLoopRests(env, Fire(env, t), n - 1);
    }
  }

  // Callbacks that, besides, cancel nothing in the main queue.
  ghost predicate OnlyAdds(env: Callbacks) {
    forall k: nat, e: Ev, late: int, i: nat :: i < |env(k, e, late)| ==> !env(k, e, late)[i].Unschedule?
  }

  // The events that a list of actions adds to the main queue, in order.
  function Added(acts: seq<Action>, now: int): seq<Ev> {
    if acts == [] then []
    else (if acts[0].Schedule? then [Ev(now + acts[0].delay, acts[0].userdata, acts[0].kind)] else [])
         + Added(acts[1..], now)
  }

  // The events added by callback runs from..|log|.
  function AddedBy(env: Callbacks, log: seq<Firing>, from: nat): seq<Ev>
    decreases |log| - from
  {
    if from >= |log| then []
    else Added(env(from, log[from].ev, log[from].late), log[from].now) + AddedBy(env, log, from + 1)
  }

  lemma {:induction false} InsertAllConcat(q: seq<Ev>, a: seq<Ev>, b: seq<Ev>)
    ensures InsertAll(q, a + b) == InsertAll(InsertAll(q, a), b)
    decreases a
  {
    if a == [] {
      assert a + b == b;
    } else {
      InsertAllConcat(Insert(q, a[0]), a[1..], b);
      assert (a + b)[1..] == a[1..] + b;
    }
  }

  lemma {:induction false} AddingActs(t: Timing, acts: seq<Action>)
    requires forall i :: 0 <= i < |acts| ==> PunctualAct(acts[i]) && !acts[i].Unschedule?
    ensures var t' := Acts(t, acts); var n := DueCount(t.queue, t.Ticks());
      && t'.Ticks() == t.Ticks() && t'.log == t.log && DueCount(t'.queue, t.Ticks()) == n
      && t'.queue[..n] == t.queue[..n]
      && t'.queue[n..] == InsertAll(t.queue[n..], Added(acts, t.Ticks()))
    decreases acts
  {
    if acts != [] {
      assert PunctualAct(acts[0]) && !acts[0].Unschedule?;
      AddingAct(t, acts[0]);
      AddingActs(Act(t, acts[0]), acts[1..]);
      InsertAllConcat(t.queue[DueCount(t.queue, t.Ticks())..], Added([acts[0]], t.Ticks()),
        Added(acts[1..], t.Ticks()));
      assert [acts[0]][1..] == [];
      assert Added(acts, t.Ticks()) == Added([acts[0]], t.Ticks()) + Added(acts[1..], t.Ticks());
    }
  }

  lemma AddingAct(t: Timing, a: Action)
    requires PunctualAct(a) && !a.Unschedule?
    ensures var t' := Act(t, a); var n := DueCount(t.queue, t.Ticks());
      && t'.Ticks() == t.Ticks() && t'.log == t.log && DueCount(t'.queue, t.Ticks()) == n
      && t'.queue[..n] == t.queue[..n]
      && t'.queue[n..] == InsertAll(t.queue[n..], Added([a], t.Ticks()))
  {
    assert [a][1..] == [];
    if a.Schedule? {
      var e := Ev(t.Ticks() + a.delay, a.userdata, a.kind);
      DueCountInsert(t.queue, e, t.Ticks());
      assert Added([a], t.Ticks()) == [e] && [e][1..] == [];
    }
  }

  // The log entry of the i-th event that was due at time now.
  function FiringOf(e: Ev, now: int): Firing { Firing(e, now, ToS32(now - e.time)) }

  // ProcessFifoWaitEvents fires exactly the events of a sorted queue that were due when it began,
  // each once, in queue order (by time, then by order of insertion); nothing it adds fires; what
  // it leaves is the rest of the queue with the callbacks' own events merged in behind.
  lemma FiresExactlyTheDue(env: Callbacks, t: Timing)
    requires Punctual(env) && OnlyAdds(env) && Sorted(t.queue)
    ensures var n := DueCount(t.queue, t.Ticks());
      && FiredTheDue(env, t, Process(env, t, n))
      && forall i :: 0 <= i < |t.queue| ==> (t.queue[i].time <= t.Ticks() <==> i < n)
  {
    FiresDueEvents(env, t);
    DueCountMeans(t.queue, t.Ticks());
  }

  lemma {:induction false} FiresDueEvents(env: Callbacks, t: Timing)
    requires Punctual(env) && OnlyAdds(env)
    ensures FiredTheDue(env, t, Process(env, t, DueCount(t.queue, t.Ticks())))
    decreases DueCount(t.queue, t.Ticks())
  {
    var now := t.Ticks();
    var n := DueCount(t.queue, now);
    if n > 0 {
      var p := Pop(t);
      var f := Fire(env, t);
      assert p.queue == t.queue[1..] && DueCount(p.queue, now) == n - 1;
      AddingActs(p, env(|t.log|, t.queue[0], ToS32(now - t.queue[0].time)));
      FiresDueEvents(env, f);
      FiredOneMore(env, t, f, Process(env, t, n));
    } else {
      assert t.queue[0..] == t.queue;
    }
  }

  ghost predicate FiredTheDue(env: Callbacks, t: Timing, t': Timing) {
    var n := DueCount(t.queue, t.Ticks());
    && !t'.Due() && t'.Ticks() == t.Ticks()
    && t'.log == t.log + seq(n, i requires 0 <= i < n => FiringOf(t.queue[i], t.Ticks()))
    && t'.queue == InsertAll(t.queue[n..], AddedBy(env, t'.log, |t.log|))
  }

  lemma FiredOneMore(env: Callbacks, t: Timing, f: Timing, t': Timing)
    requires t.Due() && FiredTheDue(env, f, t') && f.Ticks() == t.Ticks()
    requires f.log == Pop(t).log
    requires var n := DueCount(t.queue, t.Ticks()) - 1; var q := t.queue[1..];
      && DueCount(f.queue, t.Ticks()) == n && f.queue[..n] == q[..n]
      && f.queue[n..]
        == InsertAll(q[n..], Added(env(|t.log|, t.queue[0], ToS32(t.Ticks() - t.queue[0].time)), t.Ticks()))
    ensures FiredTheDue(env, t, t')
  {
    var now := t.Ticks();
    var n := DueCount(t.queue, now);
    FireLog(t, f, t', n, now);
    assert t.queue[1..][n - 1..] == t.queue[n..];
    assert t'.log[|t.log|] == FiringOf(t.queue[0], now);
    InsertAllConcat(t.queue[n..], Added(env(|t.log|, t.queue[0], ToS32(now - t.queue[0].time)), now),
                    AddedBy(env, t'.log, |f.log|));
  }

  lemma FireLog(t: Timing, f: Timing, t': Timing, n: nat, now: int)
    requires 0 < n <= |t.queue| && n - 1 <= |f.queue|
    requires f.queue[..n - 1] == t.queue[1..][..n - 1]
    requires f.log == t.log + [FiringOf(t.queue[0], now)]
    requires t'.log == f.log + seq(n - 1, i requires 0 <= i < n - 1 => FiringOf(f.queue[i], now))
    ensures t'.log == t.log + seq(n, i requires 0 <= i < n => FiringOf(t.queue[i], now))
  {
    forall i | 0 <= i < n - 1 ensures f.queue[i] == t.queue[i + 1] {
      assert f.queue[..n - 1][i] == t.queue[1..][..n - 1][i];
    }
    var all := seq(n, i requires 0 <= i < n => FiringOf(t.queue[i], now));
    var rest := seq(n - 1, i requires 0 <= i < n - 1 => FiringOf(f.queue[i], now));
    assert all == [FiringOf(t.queue[0], now)] + rest;
  }
}
