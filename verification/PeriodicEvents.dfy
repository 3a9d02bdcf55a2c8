/** The recipe of Core/CoreTiming.h for regular events: a callback that schedules itself again
    `period - cyclesLate` cycles ahead.  Over every run it fires for the times t0 + k * period as
    long as no callback is 2^31 cycles late; each that is moves it off for good, since cyclesLate
    is an int. */
module PeriodicEvents {
  import opened Words
  import opened EventQueue
  import opened TimingModel
  import opened TimingRuns

  function OfKind(q: seq<Ev>, kind: int): seq<Ev> {
    if q == [] then [] else if q[0].kind == kind then [q[0]] + OfKind(q[1..], kind) else OfKind(q[1..], kind)
  }

  // The runs of the callback of one kind, oldest first.
  function FiredOf(log: seq<Firing>, kind: int): seq<Firing> {
    if log == [] then []
    else FiredOf(log[..|log| - 1], kind) + (if log[|log| - 1].ev.kind == kind then [log[|log| - 1]] else [])
  }

  // The action neither adds nor removes events of the kind.
  predicate Apart(a: Action, kind: int) {
    match a
    case Schedule(_, k, _) => k != kind
    case ScheduleTs(_, k, _) => k != kind
    case Unschedule(sel) => sel.kind != kind
    case UnscheduleTs(sel) => sel.kind != kind
    case _ => true
  }

  ghost predicate AllApart(acts: seq<Action>, kind: int) { forall i :: 0 <= i < |acts| ==> Apart(acts[i], kind) }

  // The callback of the kind first reschedules itself; nobody else touches the kind.
  ghost predicate Reschedules(env: Callbacks, kind: int, period: int) {
    forall k: nat, e: Ev, late: int ::
      if e.kind == kind then
        && env(k, e, late) != []
        && env(k, e, late)[0] == Schedule(period - late, kind, e.userdata)
        && AllApart(env(k, e, late)[1..], kind)
      else AllApart(env(k, e, late), kind)
  }

  ghost predicate StepApart(s: Step, kind: int) { s.Call? ==> Apart(s.action, kind) }

  function Lateness(f: Firing): int { f.now - f.ev.time }

  // No callback of the kind was 2^31 cycles late.
  ghost predicate InTime(log: seq<Firing>, kind: int) {
    forall i :: 0 <= i < |FiredOf(log, kind)| ==> Lateness(FiredOf(log, kind)[i]) < 0x8000_0000
  }

  // The one event of the kind that is pending.
  ghost predicate HasPending(t: Timing, kind: int) { OfKind(t.ts, kind) == [] && |OfKind(t.queue, kind)| == 1 }

  // The pending event is for the next point of the grid; every run so far was for its own point.
  ghost predicate OnGrid(t: Timing, kind: int, t0: int, period: int) {
    var fired := FiredOf(t.log, kind);
    && HasPending(t, kind) && OfKind(t.queue, kind)[0].time == t0 + |fired| * period && FiredOnGrid(fired, t0, period)
  }

  ghost predicate FiredOnGrid(fired: seq<Firing>, t0: int, period: int) {
    forall i :: 0 <= i < |fired| ==> GridAt(fired[i], i, t0, period)
  }

  predicate GridAt(f: Firing, i: nat, t0: int, period: int) { f.ev.time == t0 + i * period }

  // What the cast of cyclesLate to an int takes off, a multiple of 2^32; and over several runs.
  function Wrap(f: Firing): int { Lateness(f) - ToS32(Lateness(f)) }

  function Drift(fired: seq<Firing>): int {
    if fired == [] then 0 else Drift(fired[..|fired| - 1]) + Wrap(fired[|fired| - 1])
  }

  // The pending event, and every run so far, is off the grid by exactly the wraps before it.
  ghost predicate Tracks(t: Timing, kind: int, t0: int, period: int) {
    var fired := FiredOf(t.log, kind);
    && HasPending(t, kind) && OfKind(t.queue, kind)[0].time == t0 + |fired| * period + Drift(fired)
    && FiredTrack(fired, t0, period)
  }

  ghost predicate FiredTrack(fired: seq<Firing>, t0: int, period: int) {
    forall i :: 0 <= i < |fired| ==> TracksAt(fired[i], fired[..i], t0, period)
  }

  // f, which had these before it, fired late or on time for its event's place.
  predicate TracksAt(f: Firing, before: seq<Firing>, t0: int, period: int) {
    f.ev.time == t0 + |before| * period + Drift(before) && Lateness(f) >= 0
  }

  lemma {:induction false} OfKindInsert(q: seq<Ev>, e: Ev, kind: int)
    ensures e.kind != kind ==> OfKind(Insert(q, e), kind) == OfKind(q, kind)
    ensures e.kind == kind && OfKind(q, kind) == [] ==> OfKind(Insert(q, e), kind) == [e]
  {
    if q == [] || e.time < q[0].time {
      assert Insert(q, e)[1..] == q;
    } else {
      OfKindInsert(q[1..], e, kind);
      assert Insert(q, e)[1..] == Insert(q[1..], e);
    }
  }

  lemma {:induction false} OfKindWithout(q: seq<Ev>, sel: Selector, kind: int)
    requires sel.kind != kind
    ensures OfKind(Without(q, sel), kind) == OfKind(q, kind)
  {
    if q != [] {
      OfKindWithout(q[1..], sel, kind);
      if !sel.Picks(q[0]) { assert Without(q, sel)[1..] == Without(q[1..], sel); }
    }
  }

  lemma {:induction false} OfKindAppend(q: seq<Ev>, e: Ev, kind: int)
    requires e.kind != kind
    ensures OfKind(q + [e], kind) == OfKind(q, kind)
  {
    if q == [] {
      assert [e][1..] == [];
    } else {
      OfKindAppend(q[1..], e, kind);
      assert (q + [e])[1..] == q[1..] + [e];
    }
  }

  lemma {:induction false} OfKindInsertAll(q: seq<Ev>, s: seq<Ev>, kind: int)
    requires OfKind(s, kind) == []
    ensures OfKind(InsertAll(q, s), kind) == OfKind(q, kind)
    decreases s
  {
    if s != [] {
      OfKindInsert(q, s[0], kind);
      OfKindInsertAll(Insert(q, s[0]), s[1..], kind);
    }
  }

  // Acts that keep apart from the kind keep its pending events and the log.
  ghost predicate SameOfKind(t: Timing, t': Timing, kind: int) {
    OfKind(t'.queue, kind) == OfKind(t.queue, kind) && OfKind(t'.ts, kind) == OfKind(t.ts, kind) && t'.log == t.log
  }

  lemma ActKeepsKind(t: Timing, a: Action, kind: int)
    requires Apart(a, kind)
    ensures SameOfKind(t, Act(t, a), kind)
  {
    match a
    case Schedule(d, k, u) => OfKindInsert(t.queue, Ev(t.Ticks() + d, u, k), kind);
    case ScheduleTs(d, k, u) => OfKindAppend(t.ts, Ev(t.Ticks() + d, u, k), kind);
    case Unschedule(sel) => OfKindWithout(t.queue, sel, kind);
    case UnscheduleTs(sel) => OfKindWithout(t.ts, sel, kind);
    case _ =>
  }

  lemma {:induction false} ActsKeepKind(t: Timing, acts: seq<Action>, kind: int)
    requires AllApart(acts, kind)
    ensures SameOfKind(t, Acts(t, acts), kind)
    decreases acts
  {
    if acts != [] {
      ActKeepsKind(t, acts[0], kind);
      ActsKeepKind(Act(t, acts[0]), acts[1..], kind);
    }
  }

  // The firing of the kind itself: its event moves on by a period and the wrap.
  lemma OwnFiring(t: Timing, a: Action, kind: int, period: int)
    requires HasPending(t, kind) && t.Due() && t.queue[0].kind == kind
    requires a == Schedule(period - ToS32(t.Ticks() - t.queue[0].time), kind, t.queue[0].userdata)
    ensures var t', e := Act(Pop(t), a), t.queue[0];
      var f := Firing(e, t.Ticks(), ToS32(t.Ticks() - e.time));
      && OfKind(t.queue, kind) == [e] && OfKind(t'.ts, kind) == []
      && OfKind(t'.queue, kind) == [Ev(e.time + period + Wrap(f), e.userdata, kind)]
      && FiredOf(t'.log, kind) == FiredOf(t.log, kind) + [f]
  {
    var e, p := t.queue[0], Pop(t);
    var f := Firing(e, t.Ticks(), ToS32(t.Ticks() - e.time));
    assert p.log[..|t.log|] == t.log;
    assert OfKind(t.queue, kind) == [e] + OfKind(p.queue, kind);
    OfKindInsert(p.queue, Ev(e.time + period + Wrap(f), e.userdata, kind), kind);
  }

  // A firing: of another kind it changes nothing, of the kind it moves its event on.
  lemma FiringMovesOn(env: Callbacks, t: Timing, kind: int, period: int)
    requires Reschedules(env, kind, period) && HasPending(t, kind) && t.Due()
    ensures var t', e := Fire(env, t), t.queue[0];
      var f := Firing(e, t.Ticks(), ToS32(t.Ticks() - e.time));
      && HasPending(t', kind)
      && (e.kind != kind ==>
            OfKind(t'.queue, kind) == OfKind(t.queue, kind) && FiredOf(t'.log, kind) == FiredOf(t.log, kind))
      && (e.kind == kind ==>
            && OfKind(t.queue, kind) == [e]
            && OfKind(t'.queue, kind) == [Ev(e.time + period + Wrap(f), e.userdata, kind)]
            && FiredOf(t'.log, kind) == FiredOf(t.log, kind) + [f])
  {
    var e := t.queue[0];
    var acts := env(|t.log|, e, ToS32(t.Ticks() - e.time));
    if e.kind == kind {
      var m := Act(Pop(t), acts[0]);
      assert Acts(Pop(t), acts) == Acts(m, acts[1..]);
      ActsKeepKind(m, acts[1..], kind);
      OwnFiring(t, acts[0], kind, period);
    } else {
      ActsKeepKind(Pop(t), acts, kind);
      assert Pop(t).log[..|t.log|] == t.log;
    }
  }

  // The firing f, of the event that was pending, leads from t to t'.
  ghost predicate MovedOn(t: Timing, t': Timing, f: Firing, kind: int, period: int) {
    && HasPending(t', kind) && OfKind(t.queue, kind) == [f.ev]
    && OfKind(t'.queue, kind) == [Ev(f.ev.time + period + Wrap(f), f.ev.userdata, kind)]
    && FiredOf(t'.log, kind) == FiredOf(t.log, kind) + [f]
  }

  lemma GridMoves(t: Timing, t': Timing, f: Firing, kind: int, t0: int, period: int)
    requires OnGrid(t, kind, t0, period) && MovedOn(t, t', f, kind, period)
    ensures OnGrid(t', kind, t0, period) <==> Wrap(f) == 0
  {
    var fired := FiredOf(t.log, kind);
    var all := fired + [f];
    forall i | 0 <= i < |all| ensures GridAt(all[i], i, t0, period) {
      if i < |fired| { assert all[i] == fired[i]; }
    }
    Distribute(|fired|, 1, period);
  }

  lemma TracksMove(t: Timing, t': Timing, f: Firing, kind: int, t0: int, period: int)
    requires Tracks(t, kind, t0, period) && MovedOn(t, t', f, kind, period) && Lateness(f) >= 0
    ensures Tracks(t', kind, t0, period)
  {
    TrackOneMore(FiredOf(t.log, kind), f, t0, period);
  }

  // From the grid, a firing stays on it exactly when it is of another kind or less than 2^31
  // cycles late.
  lemma FireKeepsGrid(env: Callbacks, t: Timing, kind: int, t0: int, period: int)
    requires Reschedules(env, kind, period) && OnGrid(t, kind, t0, period) && t.Due()
    ensures OnGrid(Fire(env, t), kind, t0, period) <==>
            t.queue[0].kind != kind || t.Ticks() - t.queue[0].time < 0x8000_0000
  {
    var t', e := Fire(env, t), t.queue[0];
    FiringMovesOn(env, t, kind, period);
    if e.kind == kind { GridMoves(t, t', Firing(e, t.Ticks(), ToS32(t.Ticks() - e.time)), kind, t0, period); }
  }

  lemma FireTracks(env: Callbacks, t: Timing, kind: int, t0: int, period: int)
    requires Reschedules(env, kind, period) && Tracks(t, kind, t0, period) && t.Due()
    ensures Tracks(Fire(env, t), kind, t0, period)
  {
    var t', e := Fire(env, t), t.queue[0];
    FiringMovesOn(env, t, kind, period);
    if e.kind == kind { TracksMove(t, t', Firing(e, t.Ticks(), ToS32(t.Ticks() - e.time)), kind, t0, period); }
  }

  lemma TrackOneMore(fired: seq<Firing>, f: Firing, t0: int, period: int)
    requires FiredTrack(fired, t0, period) && TracksAt(f, fired, t0, period)
    ensures FiredTrack(fired + [f], t0, period) && Drift(fired + [f]) == Drift(fired) + Wrap(f)
    ensures |fired + [f]| * period == |fired| * period + period
  {
    var all := fired + [f];
    assert all[..|fired|] == fired;
    forall i | 0 <= i < |all|
      ensures TracksAt(all[i], all[..i], t0, period)
    {
      if i < |fired| { assert all[..i] == fired[..i] && all[i] == fired[i]; }
    }
    Distribute(|fired|, 1, period);
  }

  lemma SameTracks(t: Timing, t': Timing, kind: int, t0: int, period: int)
    requires Tracks(t, kind, t0, period) && SameOfKind(t, t', kind)
    ensures Tracks(t', kind, t0, period)
  {}

  lemma {:induction false} ProcessTracks(env: Callbacks, t: Timing, n: nat, kind: int, t0: int, period: int)
    requires Reschedules(env, kind, period) && Tracks(t, kind, t0, period)
    ensures Tracks(Process(env, t, n), kind, t0, period)
    decreases n
  {
    if t.Due() && n > 0 {
      FireTracks(env, t, kind, t0, period);
      ProcessTracks(env, Fire(env, t), n - 1, kind, t0, period);
    }
  }

  lemma StepTracks(env: Callbacks, t: Timing, s: Step, kind: int, t0: int, period: int)
    requires Reschedules(env, kind, period) && Tracks(t, kind, t0, period) && StepApart(s, kind)
    ensures Tracks(Next(env, t, s), kind, t0, period)
  {
    match s
    case Execute(_) =>
    case IdleFor(_) =>
    case Call(a) =>
      ActKeepsKind(t, a, kind);
      SameTracks(t, Act(t, a), kind, t0, period);
    case RunAdvance(n) =>
      OfKindInsertAll(t.queue, t.ts, kind);
      SameTracks(t, AdvanceStart(t), kind, t0, period);
      ProcessTracks(env, AdvanceStart(t), n, kind, t0, period);
  }

  // Over every run each firing, and the pending event, is off the grid by exactly the wraps of
  // the firings before it.
  lemma {:induction false} DriftIsWraps(env: Callbacks, t: Timing, steps: seq<Step>, kind: int, t0: int, period: int)
    requires Reschedules(env, kind, period) && Tracks(t, kind, t0, period)
    requires forall i :: 0 <= i < |steps| ==> StepApart(steps[i], kind)
    ensures Tracks(Run(env, t, steps), kind, t0, period)
    decreases |steps|
  {
    if steps != [] {
      assert StepApart(steps[0], kind);
      StepTracks(env, t, steps[0], kind, t0, period);
      DriftIsWraps(env, Next(env, t, steps[0]), steps[1..], kind, t0, period);
    }
  }

  // The wraps are never negative, so that they never cancel out.
  lemma {:induction false} DriftZero(fired: seq<Firing>)
    requires forall i :: 0 <= i < |fired| ==> Lateness(fired[i]) >= 0
    ensures Drift(fired) >= 0
    ensures Drift(fired) == 0 <==> forall i :: 0 <= i < |fired| ==> Lateness(fired[i]) < 0x8000_0000
  {
    if fired != [] {
      var n := |fired| - 1;
      DriftZero(fired[..n]);
      assert forall i :: 0 <= i < n ==> fired[..n][i] == fired[i];
    }
  }

  // Before the first firing of the kind its one pending event sets the grid.
  lemma FirstTracks(t: Timing, kind: int, period: int)
    requires HasPending(t, kind) && FiredOf(t.log, kind) == []
    ensures Tracks(t, kind, OfKind(t.queue, kind)[0].time, period)
  {}

  // No drift, exactly: over every run the k-th callback of the kind is the one for
  // t0 + k * period, for every k, if and only if none of them was 2^31 cycles late.
  lemma NoDrift(env: Callbacks, t: Timing, steps: seq<Step>, kind: int, t0: int, period: int)
    requires Reschedules(env, kind, period) && Tracks(t, kind, t0, period)
    requires forall i :: 0 <= i < |steps| ==> StepApart(steps[i], kind)
    ensures OnGrid(Run(env, t, steps), kind, t0, period) <==> InTime(Run(env, t, steps).log, kind)
  {
    DriftIsWraps(env, t, steps, kind, t0, period);
    TracksOnGrid(Run(env, t, steps), kind, t0, period);
  }

  lemma TracksOnGrid(t: Timing, kind: int, t0: int, period: int)
    requires Tracks(t, kind, t0, period)
    ensures OnGrid(t, kind, t0, period) <==> InTime(t.log, kind)
  {
    var fired := FiredOf(t.log, kind);
    forall i | 0 <= i < |fired| ensures Lateness(fired[i]) >= 0 { assert TracksAt(fired[i], fired[..i], t0, period); }
    DriftZero(fired);
    if InTime(t.log, kind) {
      forall i | 0 <= i < |fired| ensures GridAt(fired[i], i, t0, period) {
        DriftZero(fired[..i]);
        assert TracksAt(fired[i], fired[..i], t0, period);
      }
    }
  }

  // A callback that is 2^31 cycles late puts its next event 2^32 cycles too far.
  lemma LateCallbackDrifts(t: Timing, e: Ev, period: int)
    requires t.Due() && t.queue == [e] && t.Ticks() - e.time == 0x8000_0000
    ensures var late := ToS32(t.Ticks() - e.time);
      Acts(Pop(t), [Schedule(period - late, e.kind, e.userdata)]).queue
        == [Ev(e.time + period + 0x1_0000_0000, e.userdata, e.kind)]
  {
    var late := ToS32(t.Ticks() - e.time);
    assert late == -0x8000_0000;
    var a := Schedule(period - late, e.kind, e.userdata);
    assert [a][1..] == [];
    assert Acts(Pop(t), [a]) == Act(Pop(t), a);
  }

  // A callback that eats cycles before it reschedules itself drifts by what it ate.
  lemma EatingFirstDrifts(t: Timing, e: Ev, period: int, eaten: nat)
    requires t.Due() && t.queue == [e] && 0 <= t.Ticks() - e.time < 0x8000_0000
    ensures var late := ToS32(t.Ticks() - e.time);
      var f := Acts(Pop(t), [Eat(eaten), Schedule(period - late, e.kind, e.userdata)]);
      f.queue == [Ev(e.time + period + eaten, e.userdata, e.kind)]
  {
    var late := ToS32(t.Ticks() - e.time);
    var acts := [Eat(eaten), Schedule(period - late, e.kind, e.userdata)];
    assert acts[1..] == [Schedule(period - late, e.kind, e.userdata)] && acts[1..][1..] == [];
    var m := Act(Pop(t), Eat(eaten));
    assert Acts(Pop(t), acts) == Acts(m, acts[1..]) == Act(m, acts[1]);
  }
}
