/** The hand-over of thread-safe events in Core/CoreTiming.cpp, as a step machine.

    Any number of outside threads append under externalEventSection and then raise
    hasTsEvents (ScheduleEvent_Threadsafe), or withdraw events (UnscheduleThreadsafeEvent).
    The CPU thread tests the flag without the lock (Advance), lowers it, still without the
    lock, and then drains under the lock (MoveEvents).  Events are numbered in the order of
    their append; each step is atomic and steps interleave in any order. */
module WakeupProtocol {

  datatype ProducerAt = Outside | Locked | Appended | Done
  datatype CpuAt = Away | Seen | Cleared | Draining
  datatype Owner = Free | Cpu | Producer(id: nat)

  datatype State = State(fifo: seq<nat>, taken: seq<nat>, next: nat, flag: bool,
                         owner: Owner, cpu: CpuAt, producers: seq<ProducerAt>, passes: nat)

  datatype Step =
    | Lock(i: nat) | Append(i: nat) | Raise(i: nat) | Unlock(i: nat)
    | Withdraw(i: nat, victims: set<nat>)
    | Test | Clear | CpuLock | Take | CpuUnlock

  predicate Enabled(s: State, a: Step) {
    match a
    case Lock(i) => i < |s.producers| && s.producers[i] == Outside && s.owner == Free
    case Append(i) => i < |s.producers| && s.producers[i] == Locked
    case Raise(i) => i < |s.producers| && s.producers[i] == Appended
    case Unlock(i) => i < |s.producers| && s.producers[i] == Done
    case Withdraw(i, _) => i < |s.producers| && s.producers[i] == Locked
    case Test => s.cpu == Away
    case Clear => s.cpu == Away || s.cpu == Seen // MoveEvents, also called on its own
    case CpuLock => s.cpu == Cleared && s.owner == Free
    case Take => s.cpu == Draining && s.fifo != []
    case CpuUnlock => s.cpu == Draining && s.fifo == []
  }

  function Keep(fifo: seq<nat>, victims: set<nat>): seq<nat> {
    if fifo == [] then []
    else if fifo[0] in victims then Keep(fifo[1..], victims) else [fifo[0]] + Keep(fifo[1..], victims)
  }

  function Do(s: State, a: Step): State
    requires Enabled(s, a)
  {
    match a
    case Lock(i) => s.(producers := s.producers[i := Locked], owner := Producer(i))
    case Append(i) => s.(producers := s.producers[i := Appended], fifo := s.fifo + [s.next], next := s.next + 1)
    case Raise(i) => s.(producers := s.producers[i := Done], flag := true)
    case Unlock(i) => s.(producers := s.producers[i := Outside], owner := Free)
    case Withdraw(i, victims) => s.(producers := s.producers[i := Done], fifo := Keep(s.fifo, victims))
    case Test => if s.flag then s.(cpu := Seen) else s.(passes := s.passes + 1)
    case Clear => s.(cpu := Cleared, flag := false)
    case CpuLock => s.(cpu := Draining, owner := Cpu)
    case Take => s.(fifo := s.fifo[1..], taken := s.taken + [s.fifo[0]])
    case CpuUnlock => s.(cpu := Away, owner := Free, passes := s.passes + 1)
  }

  function Start(producers: nat): State {
    State([], [], 0, false, Free, Away, seq(producers, i => Outside), 0)
  }

  // The states s, Do(s, run[0]), ... of a run; None when a step is not enabled.
  datatype Outcome = Stuck | At(state: State)

  function Run(s: State, run: seq<Step>): Outcome
    decreases run
  {
    if run == [] then At(s)
    else if Enabled(s, run[0]) then Run(Do(s, run[0]), run[1..]) else Stuck
  }

  // ---------------------------------------------------------------- invariants

  // One owner at a time, and it is inside its critical section.
  ghost predicate Exclusive(s: State) {
    && (s.owner == Cpu <==> s.cpu == Draining)
    && forall i :: 0 <= i < |s.producers| ==> (s.producers[i] != Outside <==> s.owner == Producer(i))
  }

  ghost predicate MidAppend(s: State) {
    s.owner.Producer? && s.owner.id < |s.producers| && s.producers[s.owner.id] == Appended
  }

  // An event is queued and the flag is down only while the CPU thread is between its clear and
  // the end of its drain, or a producer is between its append and its raise.
  ghost predicate NoLostWakeup(s: State) {
    s.fifo != [] && !s.flag ==> s.cpu == Cleared || s.cpu == Draining || MidAppend(s)
  }

  // Everything taken or queued stands in the order of its append, once.
  ghost predicate InOrder(s: State) {
    var all := s.taken + s.fifo;
    (forall i, j :: 0 <= i < j < |all| ==> all[i] < all[j]) && forall i :: 0 <= i < |all| ==> all[i] < s.next
  }

  ghost predicate Inv(s: State) { Exclusive(s) && NoLostWakeup(s) && InOrder(s) }

  lemma {:induction false} KeepFacts(fifo: seq<nat>, victims: set<nat>)
    requires forall i, j :: 0 <= i < j < |fifo| ==> fifo[i] < fifo[j]
    ensures var k := Keep(fifo, victims);
      (forall i, j :: 0 <= i < j < |k| ==> k[i] < k[j]) && forall x :: x in k <==> x in fifo && x !in victims
  {
    if fifo != [] {
      var rest := Keep(fifo[1..], victims);
      KeepFacts(fifo[1..], victims);
      assert fifo == [fifo[0]] + fifo[1..];
      forall i | 0 <= i < |rest|
        ensures fifo[0] < rest[i]
      {
        assert rest[i] in rest;
        var j :| 0 <= j < |fifo[1..]| && fifo[1..][j] == rest[i];
        assert fifo[1..][j] == fifo[j + 1];
      }
    }
  }

  // The queue alone is in order, behind everything taken.
  lemma QueueFacts(s: State)
    requires InOrder(s)
    ensures forall i, j :: 0 <= i < j < |s.fifo| ==> s.fifo[i] < s.fifo[j]
    ensures forall x :: x in s.fifo ==> x < s.next
    ensures forall i, x :: 0 <= i < |s.taken| && x in s.fifo ==> s.taken[i] < x
  {
    var all := s.taken + s.fifo;
    assert forall i :: 0 <= i < |s.fifo| ==> s.fifo[i] == all[|s.taken| + i];
    assert forall i :: 0 <= i < |s.taken| ==> s.taken[i] == all[i];
  }

  lemma WithdrawInOrder(s: State, i: nat, victims: set<nat>)
    requires InOrder(s) && Enabled(s, Withdraw(i, victims))
    ensures InOrder(Do(s, Withdraw(i, victims)))
  {
    QueueFacts(s);
    KeepFacts(s.fifo, victims);
    var k := Keep(s.fifo, victims);
    assert forall i :: 0 <= i < |k| ==> k[i] in k && k[i] in s.fifo;
    assert forall i :: 0 <= i < |s.taken| ==> s.taken[i] == (s.taken + s.fifo)[i];
  }

  lemma TakeInOrder(s: State)
    requires InOrder(s) && Enabled(s, Take)
    ensures InOrder(Do(s, Take))
  {
    assert s.taken + s.fifo == (s.taken + [s.fifo[0]]) + s.fifo[1..];
  }

  lemma StepKeepsInv(s: State, a: Step)
    requires Inv(s) && Enabled(s, a)
    ensures Inv(Do(s, a))
  {
    match a
    case Withdraw(i, victims) => WithdrawInOrder(s, i, victims);
    case Take => TakeInOrder(s);
    case Append(i) => assert s.taken + (s.fifo + [s.next]) == s.taken + s.fifo + [s.next];
    case _ =>
  }

  // In every state of every interleaving.
  lemma {:induction false} RunKeepsInv(s: State, run: seq<Step>)
    requires Inv(s) && Run(s, run).At?
    ensures Inv(Run(s, run).state)
    decreases run
  {
    if run != [] {
      StepKeepsInv(s, run[0]);
      RunKeepsInv(Do(s, run[0]), run[1..]);
    }
  }

  lemma ReachableInv(producers: nat, run: seq<Step>)
    requires Run(Start(producers), run).At?
    ensures Inv(Run(Start(producers), run).state)
  {
    RunKeepsInv(Start(producers), run);
  }

  // ---------------------------------------------------------------- delivery

  // How things stand for the events before number b after the pass p has begun or ended.
  ghost predicate Delivering(s: State, b: nat, p: nat) {
    && b <= s.next && p <= s.passes
    && ((s.passes == p ==> s.cpu == Away && !s.flag) ==> forall x :: x in s.fifo ==> x >= b)
  }

  lemma StepDelivers(s: State, a: Step, b: nat, p: nat)
    requires Inv(s) && Enabled(s, a) && Delivering(s, b, p)
    ensures Delivering(Do(s, a), b, p)
  {
    match a
    case Withdraw(_, victims) => QueueFacts(s); KeepFacts(s.fifo, victims);
    case Take => assert forall x :: x in s.fifo[1..] ==> x in s.fifo;
    case Append(_) => assert forall x :: x in s.fifo + [s.next] ==> x in s.fifo || x == s.next;
    case _ =>
  }

  lemma {:induction false} RunDelivers(s: State, run: seq<Step>, b: nat, p: nat)
    requires Inv(s) && Run(s, run).At? && Delivering(s, b, p)
    ensures Delivering(Run(s, run).state, b, p)
    decreases run
  {
    if run != [] {
      StepKeepsInv(s, run[0]);
      StepDelivers(s, run[0], b, p);
      RunDelivers(Do(s, run[0]), run[1..], b, p);
    }
  }

  // However the threads interleave from s, once the CPU thread has completed one more pass, none
  // of the events queued in s is queued any longer: each was taken, or withdrawn.
  ghost predicate NextPassDelivers(s: State) {
    forall after: seq<Step> :: Run(s, after).At? && Run(s, after).state.passes > s.passes ==>
      NoneLeft(s, Run(s, after).state)
  }

  ghost predicate NoneLeft(s: State, s': State) { forall x :: x in s.fifo ==> x !in s'.fifo }

  // No lost wakeup, end to end: in every reachable state in which the CPU thread is elsewhere,
  // its next pass delivers exactly when the flag is up or nothing is queued.
  lemma EveryPassDelivers(producers: nat, before: seq<Step>)
    requires Run(Start(producers), before).At? && Run(Start(producers), before).state.cpu == Away
    ensures var s := Run(Start(producers), before).state; NextPassDelivers(s) <==> s.flag || s.fifo == []
  {
    var s := Run(Start(producers), before).state;
    ReachableInv(producers, before);
    QueueFacts(s);
    if s.flag || s.fifo == [] {
      forall after: seq<Step> | Run(s, after).At? && Run(s, after).state.passes > s.passes
        ensures NoneLeft(s, Run(s, after).state)
      {
        RunDelivers(s, after, s.next, s.passes);
      }
    } else {
      assert [Test][1..] == [];
      assert Run(s, [Test]) == At(Do(s, Test));
      assert s.fifo[0] in s.fifo && !NoneLeft(s, Do(s, Test));
    }
  }

  // The flag is down over a queue only while a producer is between its append and its raise, so
  // that without such a producer every pass delivers.
  lemma SettledPassDelivers(producers: nat, before: seq<Step>)
    requires Run(Start(producers), before).At? && Run(Start(producers), before).state.cpu == Away
    requires !MidAppend(Run(Start(producers), before).state)
    ensures NextPassDelivers(Run(Start(producers), before).state)
  {
    ReachableInv(producers, before);
    EveryPassDelivers(producers, before);
  }

  // The exception is real: a producer caught between append and raise is passed over.
  lemma MidAppendIsPassedOver()
    ensures var r := Run(Start(1), [Lock(0), Append(0), Test]);
      r.At? && r.state.passes == 1 && r.state.fifo == [0] && MidAppend(r.state)
  {
    var s0 := Start(1);
    var s1 := Do(s0, Lock(0));
    var s2 := Do(s1, Append(0));
    assert [Lock(0), Append(0), Test][1..] == [Append(0), Test] && [Append(0), Test][1..] == [Test]
        && [Test][1..] == [];
    assert Run(s2, [Test]) == At(Do(s2, Test));
    assert Run(s1, [Append(0), Test]) == Run(s2, [Test]);
  }

  // A queue that is filled without a raise, as DoState fills it, waits: with the flag down no
  // number of CPU passes touches it.
  lemma {:induction false} RestoredQueueWaits(s: State, passes: nat)
    requires s.cpu == Away && !s.flag
    ensures Run(s, seq(passes, _ => Test)) == At(s.(passes := s.passes + passes))
    decreases passes
  {
    if passes > 0 {
      var run := seq(passes, _ => Test);
      assert run[1..] == seq(passes - 1, _ => Test);
      RestoredQueueWaits(Do(s, Test), passes - 1);
    }
  }
}
