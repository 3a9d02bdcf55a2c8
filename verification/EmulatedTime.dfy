/** Emulated microseconds in Core/CoreTiming.cpp: GetGlobalTimeUs and SetClockFrequencyMHz. */
module EmulatedTime {

  // lastGlobalTimeTicks, lastGlobalTimeUs and CPU_HZ.
  datatype Base = Base(ticks: int, us: int, hz: int)

  const INITIAL_HZ := 222000000

  // C++ integer division truncates toward zero.
  function Truncate(a: int, b: int): int
    requires b != 0
  {
    if a >= 0 then a / b else -((-a) / b)
  }

  function MicrosAt(b: Base, now: int): int
    requires b.hz >= 1000000
  {
    b.us + Truncate(now - b.ticks, b.hz / 1000000)
  }

  function Rebase(b: Base, now: int, mhz: int): Base
    requires b.hz >= 1000000
  {
    Base(now, MicrosAt(b, now), mhz * 1000000)
  }

  class TimeBase {
    var cpuHz: int
    var lastGlobalTimeTicks: int
    var lastGlobalTimeUs: int

    ghost function State(): Base
      reads this
    {
      Base(lastGlobalTimeTicks, lastGlobalTimeUs, cpuHz)
    }

    constructor Init()
      ensures State() == Base(0, 0, INITIAL_HZ)
    {
      cpuHz, lastGlobalTimeTicks, lastGlobalTimeUs := INITIAL_HZ, 0, 0;
    }

    method GetGlobalTimeUs(ticks: int) returns (us: int)
      requires cpuHz >= 1000000
      ensures us == MicrosAt(State(), ticks)
    {
      var ticksSinceLast := ticks - lastGlobalTimeTicks;
      var freq := cpuHz / 1000000;
      us := lastGlobalTimeUs + Truncate(ticksSinceLast, freq);
    }

    method SetClockFrequencyMHz(cpuMhz: int, ticks: int)
      requires cpuHz >= 1000000
      modifies this
      ensures State() == Rebase(old(State()), ticks, cpuMhz)
    {
      lastGlobalTimeUs := GetGlobalTimeUs(ticks);
      lastGlobalTimeTicks := ticks;
      cpuHz := cpuMhz * 1000000;
    }
  }

  datatype Step = Ticks(n: nat) | Change(mhz: int)

  datatype Moment = Moment(base: Base, now: int)

  ghost predicate Sound(m: Moment) { m.base.hz >= 1000000 && m.now >= m.base.ticks }

  function Micros(m: Moment): int
    requires m.base.hz >= 1000000
  {
    MicrosAt(m.base, m.now)
  }

  function Next(m: Moment, s: Step): Moment
    requires m.base.hz >= 1000000
  {
    match s
    case Ticks(n) => m.(now := m.now + n)
    case Change(mhz) => m.(base := Rebase(m.base, m.now, mhz))
  }

  ghost predicate Positive(steps: seq<Step>) { forall s :: s in steps && s.Change? ==> s.mhz >= 1 }

  function Run(m: Moment, steps: seq<Step>): Moment
    requires m.base.hz >= 1000000 && Positive(steps)
    decreases steps
  {
    if steps == [] then m
    else
      assert steps[0] in steps;
      Run(Next(m, steps[0]), steps[1..])
  }

  function Changes(steps: seq<Step>): nat {
    if steps == [] then 0 else (if steps[0].Change? then 1 else 0) + Changes(steps[1..])
  }

  // The time that the steps take, with no rounding.
  function Exact(hz: int, steps: seq<Step>): real
    requires hz >= 1000000 && Positive(steps)
    decreases steps
  {
    if steps == [] then 0.0
    else
      assert steps[0] in steps;
      match steps[0]
      case Ticks(n) => n as real / (hz / 1000000) as real + Exact(hz, steps[1..])
      case Change(mhz) => Exact(mhz * 1000000, steps[1..])
  }

  lemma QuotientMonotone(a: int, b: int, f: int)
    requires 0 <= a <= b && f > 0
    ensures a / f <= b / f
  {
    if a / f > b / f { ScaledGap(a / f, b / f, f); }
  }

  lemma ScaledGap(p: int, q: int, f: int)
    requires p > q && f > 0
    ensures p * f >= q * f + f
  {
    assert (p - q - 1) * f >= 0;
    assert (p - q - 1) * f == p * f - q * f - f;
  }

  lemma QuotientBounds(a: int, f: int)
    requires a >= 0 && f > 0
    ensures (a / f) as real <= a as real / f as real < (a / f) as real + 1.0
  {
    var q, r := a / f, a % f;
    assert a == q * f + r;
    assert a as real == q as real * f as real + r as real;
    assert a as real / f as real == q as real + r as real / f as real;
  }

  // A frequency change does not move the clock, whatever the old and the new frequency.
  lemma ChangeIsContinuous(m: Moment, mhz: int)
    requires m.base.hz >= 1000000 && mhz >= 1
    ensures Micros(Next(m, Change(mhz))) == Micros(m)
  {
    assert Truncate(0, mhz * 1000000 / 1000000) == 0;
  }

  lemma StepForward(m: Moment, s: Step)
    requires Sound(m) && (s.Change? ==> s.mhz >= 1)
    ensures Sound(Next(m, s)) && Micros(m) <= Micros(Next(m, s))
  {
    match s
    case Ticks(n) => QuotientMonotone(m.now - m.base.ticks, m.now + n - m.base.ticks, m.base.hz / 1000000);
    case Change(mhz) => ChangeIsContinuous(m, mhz);
  }

  // Emulated time never goes back.
  lemma {:induction false} TimeNeverGoesBack(m: Moment, steps: seq<Step>)
    requires Sound(m) && Positive(steps)
    ensures Sound(Run(m, steps)) && Micros(m) <= Micros(Run(m, steps))
    decreases steps
  {
    if steps != [] {
      assert steps[0] in steps;
      StepForward(m, steps[0]);
      TimeNeverGoesBack(Next(m, steps[0]), steps[1..]);
    }
  }

  // The exact time of a moment on a base that is itself exact.
  function ExactAt(m: Moment): real
    requires m.base.hz >= 1000000
  {
    m.base.us as real + (m.now - m.base.ticks) as real / (m.base.hz / 1000000) as real
  }

  lemma StepLag(m: Moment, s: Step)
    requires Sound(m) && (s.Change? ==> s.mhz >= 1)
    ensures s.Ticks? ==> ExactAt(Next(m, s)) == ExactAt(m) + s.n as real / (m.base.hz / 1000000) as real
    ensures s.Change? ==> ExactAt(Next(m, s)) == Micros(m) as real && 0.0 <= ExactAt(m) - Micros(m) as real < 1.0
  {
    var f := m.base.hz / 1000000;
    match s
    case Ticks(n) =>
      assert (m.now + n - m.base.ticks) as real / f as real
          == (m.now - m.base.ticks) as real / f as real + n as real / f as real;
    case Change(_) => QuotientBounds(m.now - m.base.ticks, f);
  }

  // After k changes the clock is behind the exact piecewise time by less than k + 1
  // microseconds, and never ahead of it.
  lemma {:induction false} LagIsBounded(m: Moment, steps: seq<Step>)
    requires Sound(m) && Positive(steps)
    ensures Sound(Run(m, steps))
    ensures var lag := ExactAt(m) + Exact(m.base.hz, steps) - Micros(Run(m, steps)) as real;
      0.0 <= lag < Changes(steps) as real + 1.0
    decreases steps
  {
    if steps == [] {
      QuotientBounds(m.now - m.base.ticks, m.base.hz / 1000000);
    } else {
      assert steps[0] in steps;
      StepForward(m, steps[0]);
      StepLag(m, steps[0]);
      LagIsBounded(Next(m, steps[0]), steps[1..]);
    }
  }
}
