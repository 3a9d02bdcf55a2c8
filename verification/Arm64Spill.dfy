/** ARM64FloatEmitter::ABI_PushRegisters and ABI_PopRegisters of Common/Arm64Emitter.cpp: which
    instructions they emit, and what executing those does to the vector registers, the stack
    pointer and 16-byte cells of memory. */
module Arm64Spill {
  import opened Words
  import opened BitSets

  datatype State = State(q: seq<nat>, sp: int, tmp: int, mem: map<int, nat>)

  ghost predicate IsState(s: State) { |s.q| == 32 }

  // The instructions with the operands the emitter passes.  Post-indexed stores go through tmp,
  // post-indexed loads and pre-indexed stores through SP.
  datatype Inst =
    | SubSp(imm: int) | MoveSp
    | St1(count: nat, first: nat) | StpPost(r0: nat, r1: nat, imm: int) | StrPost(r0: nat, imm: int)
    | StpPre(r0: nat, r1: nat, imm: int) | StrPre(r0: nat, imm: int)
    | Ld1(count: nat, first: nat) | LdpPost(r0: nat, r1: nat, imm: int) | LdrPost(r0: nat, imm: int)

  function Read(mem: map<int, nat>, a: int): nat { if a in mem then mem[a] else 0 }

  function Reg(q: seq<nat>, r: nat): nat { if r < |q| then q[r] else 0 }

  // Registers in consecutive cells from a up.
  function Store(mem: map<int, nat>, a: int, q: seq<nat>, regs: seq<nat>): map<int, nat>
    decreases |regs|
  {
    if regs == [] then mem else Store(mem[a := Reg(q, regs[0])], a + 16, q, regs[1..])
  }

  function Load(q: seq<nat>, mem: map<int, nat>, a: int, regs: seq<nat>): (r: seq<nat>)
    ensures |r| == |q|
    decreases |regs|
  {
    if regs == [] then q
    else Load(if regs[0] < |q| then q[regs[0] := Read(mem, a)] else q, mem, a + 16, regs[1..])
  }

  function Range(first: nat, count: nat): seq<nat> { seq(count, i => first + i) }

  function Exec(s: State, i: Inst): State {
    match i
    case SubSp(imm) => s.(sp := s.sp - imm)
    case MoveSp => s.(tmp := s.sp)
    case St1(count, first) => s.(mem := Store(s.mem, s.tmp, s.q, Range(first, count)), tmp := s.tmp + 16 * count)
    case StpPost(r0, r1, imm) => s.(mem := Store(s.mem, s.tmp, s.q, [r0, r1]), tmp := s.tmp + imm)
    case StrPost(r0, imm) => s.(mem := Store(s.mem, s.tmp, s.q, [r0]), tmp := s.tmp + imm)
    case StpPre(r0, r1, imm) => s.(mem := Store(s.mem, s.sp + imm, s.q, [r0, r1]), sp := s.sp + imm)
    case StrPre(r0, imm) => s.(mem := Store(s.mem, s.sp + imm, s.q, [r0]), sp := s.sp + imm)
    case Ld1(count, first) => s.(q := Load(s.q, s.mem, s.sp, Range(first, count)), sp := s.sp + 16 * count)
    case LdpPost(r0, r1, imm) => s.(q := Load(s.q, s.mem, s.sp, [r0, r1]), sp := s.sp + imm)
    case LdrPost(r0, imm) => s.(q := Load(s.q, s.mem, s.sp, [r0]), sp := s.sp + imm)
  }

  function Run(s: State, insts: seq<Inst>): State
    decreases |insts|
  {
    if insts == [] then s else Run(Exec(s, insts[0]), insts[1..])
  }

  lemma {:induction false} RunConcat(s: State, a: seq<Inst>, b: seq<Inst>)
    ensures Run(s, a + b) == Run(Run(s, a), b)
    decreases |a|
  {
    if a == [] {
      assert a + b == b;
    } else {
      assert (a + b)[1..] == a[1..] + b;
      RunConcat(Exec(s, a[0]), a[1..], b);
    }
  }

  // ------------------------------------------------------------ which register lies where

  // How many of the registers from i on are in the set without a gap, at most 4.
  function RunLength(m: nat, i: nat): nat {
    if i + 1 >= 32 || !Bit(m, i + 1) then 1
    else if i + 2 >= 32 || !Bit(m, i + 2) then 2
    else if i + 3 >= 32 || !Bit(m, i + 3) then 3
    else 4
  }

  // The registers in runs of two to four, and the others.
  function InRuns(m: nat, i: nat): seq<nat>
    decreases 32 - i
  {
    if i >= 32 then [] else if !Bit(m, i) then InRuns(m, i + 1)
    else (if RunLength(m, i) > 1 then Range(i, RunLength(m, i)) else []) + InRuns(m, i + RunLength(m, i))
  }

  function Islands(m: nat, i: nat): seq<nat>
    decreases 32 - i
  {
    if i >= 32 then [] else if !Bit(m, i) then Islands(m, i + 1)
    else (if RunLength(m, i) == 1 then [i] else []) + Islands(m, i + RunLength(m, i))
  }

  // Pairs pushed one below the other, a register left over at the bottom.
  function Stacked(regs: seq<nat>): seq<nat>
    decreases |regs|
  {
    if |regs| < 2 then regs else Stacked(regs[2..]) + regs[..2]
  }

  predicate HasRun(m: nat) { exists i: nat :: i < 31 && Bit(m, i) && Bit(m, i + 1) }

  // The registers from the lowest cell up.
  function Layout(m: nat, hasTmp: bool): seq<nat> {
    if HasRun(m) && hasTmp then InRuns(m, 0) + Islands(m, 0) else Stacked(Ascending(m, 0))
  }

  // ------------------------------------------------------------ what is emitted

  function StoreRuns(m: nat, i: nat): seq<Inst>
    decreases 32 - i
  {
    if i >= 32 then [] else if !Bit(m, i) then StoreRuns(m, i + 1)
    else (if RunLength(m, i) > 1 then [St1(RunLength(m, i), i)] else []) + StoreRuns(m, i + RunLength(m, i))
  }

  function LoadRuns(m: nat, i: nat): seq<Inst>
    decreases 32 - i
  {
    if i >= 32 then [] else if !Bit(m, i) then LoadRuns(m, i + 1)
    else (if RunLength(m, i) > 1 then [Ld1(RunLength(m, i), i)] else []) + LoadRuns(m, i + RunLength(m, i))
  }

  function StorePairs(regs: seq<nat>): seq<Inst>
    decreases |regs|
  {
    if regs == [] then [] else if |regs| == 1 then [StrPost(regs[0], 16)]
    else [StpPost(regs[0], regs[1], 32)] + StorePairs(regs[2..])
  }

  function LoadPairs(regs: seq<nat>): seq<Inst>
    decreases |regs|
  {
    if regs == [] then [] else if |regs| == 1 then [LdrPost(regs[0], 16)]
    else [LdpPost(regs[0], regs[1], 32)] + LoadPairs(regs[2..])
  }

  function PushPairs(regs: seq<nat>): seq<Inst>
    decreases |regs|
  {
    if regs == [] then [] else if |regs| == 1 then [StrPre(regs[0], -16)]
    else [StpPre(regs[0], regs[1], -32)] + PushPairs(regs[2..])
  }

  // Where the top of a stack of n registers begins: one alone if n is odd, else a pair.
  function Cut2(n: nat): nat
    requires n > 0
  {
    if n % 2 == 1 then n - 1 else n - 2
  }

  // top is one register or two.
  function LoadTop(top: seq<nat>): Inst
    requires 1 <= |top| <= 2
  {
    if |top| == 1 then LdrPost(top[0], 16) else LdpPost(top[0], top[1], 32)
  }

  // regs from the highest down.
  function PopPairs(regs: seq<nat>): seq<Inst>
    decreases |regs|
  {
    if regs == [] then [] else [LoadTop(regs[Cut2(|regs|)..])] + PopPairs(regs[..Cut2(|regs|)])
  }

  function PushInsts(m: nat, hasTmp: bool): seq<Inst> {
    if HasRun(m) && hasTmp then [SubSp(PopCount(m) * 16), MoveSp] + StoreRuns(m, 0) + StorePairs(Islands(m, 0))
    else PushPairs(Ascending(m, 0))
  }

  function PopInsts(m: nat, hasTmp: bool): seq<Inst> {
    if HasRun(m) && hasTmp then LoadRuns(m, 0) + LoadPairs(Islands(m, 0)) else PopPairs(Ascending(m, 0))
  }

  // ------------------------------------------------------------ storing

  // Cell x of memory after the registers are stored from a up.
  function Cell(mem: map<int, nat>, a: int, q: seq<nat>, regs: seq<nat>, x: int): nat {
    if a <= x < a + 16 * |regs| && (x - a) % 16 == 0 then Reg(q, regs[(x - a) / 16]) else Read(mem, x)
  }

  lemma {:induction false} StoreIs(mem: map<int, nat>, a: int, q: seq<nat>, regs: seq<nat>, x: int)
    ensures Read(Store(mem, a, q, regs), x) == Cell(mem, a, q, regs, x)
    decreases |regs|
  {
    if regs != [] {
      StoreIs(mem[a := Reg(q, regs[0])], a + 16, q, regs[1..], x);
      if a + 16 <= x && (x - a) % 16 == 0 {
        assert (x - (a + 16)) / 16 == (x - a) / 16 - 1 && (x - (a + 16)) % 16 == 0;
      }
    }
  }

  lemma {:induction false} StoreConcat(mem: map<int, nat>, a: int, q: seq<nat>, r1: seq<nat>, r2: seq<nat>)
    ensures Store(mem, a, q, r1 + r2) == Store(Store(mem, a, q, r1), a + 16 * |r1|, q, r2)
    decreases |r1|
  {
    if r1 == [] {
      assert r1 + r2 == r2;
    } else {
      assert (r1 + r2)[1..] == r1[1..] + r2;
      StoreConcat(mem[a := Reg(q, r1[0])], a + 16, q, r1[1..], r2);
    }
  }

  // What post-indexed stores of regs do.
  function Stored(s: State, regs: seq<nat>): State {
    s.(mem := Store(s.mem, s.tmp, s.q, regs), tmp := s.tmp + 16 * |regs|)
  }

  lemma StoredConcat(s: State, r1: seq<nat>, r2: seq<nat>)
    ensures Stored(Stored(s, r1), r2) == Stored(s, r1 + r2)
  {
    StoreConcat(s.mem, s.tmp, s.q, r1, r2);
  }

  lemma {:induction false} StoreRunsDo(m: nat, i: nat, s: State)
    ensures Run(s, StoreRuns(m, i)) == Stored(s, InRuns(m, i))
    decreases 32 - i
  {
    if i < 32 {
      if !Bit(m, i) {
        StoreRunsDo(m, i + 1, s);
      } else {
        var c := RunLength(m, i);
        if c > 1 {
          var s1 := Exec(s, St1(c, i));
          RunConcat(s, [St1(c, i)], StoreRuns(m, i + c));
          StoreRunsDo(m, i + c, s1);
          StoredConcat(s, Range(i, c), InRuns(m, i + c));
        } else {
          assert [] + StoreRuns(m, i + c) == StoreRuns(m, i + c) && [] + InRuns(m, i + c) == InRuns(m, i + c);
          StoreRunsDo(m, i + c, s);
        }
      }
    }
  }

  lemma {:induction false} StorePairsDo(regs: seq<nat>, s: State)
    ensures Run(s, StorePairs(regs)) == Stored(s, regs)
    decreases |regs|
  {
    if |regs| == 1 {
      assert regs == [regs[0]];
    } else if |regs| > 1 {
      RunConcat(s, [StpPost(regs[0], regs[1], 32)], StorePairs(regs[2..]));
      StorePairsDo(regs[2..], Exec(s, StpPost(regs[0], regs[1], 32)));
      StoredConcat(s, [regs[0], regs[1]], regs[2..]);
      assert [regs[0], regs[1]] + regs[2..] == regs;
    }
  }

  lemma {:induction false} StackedSize(regs: seq<nat>)
    ensures |Stacked(regs)| == |regs|
    decreases |regs|
  {
    if |regs| >= 2 { StackedSize(regs[2..]); }
  }

  lemma {:induction false} PushPairsDo(regs: seq<nat>, s: State, x: int)
    ensures var s' := Run(s, PushPairs(regs));
      && s'.sp == s.sp - 16 * |regs| && s'.q == s.q && s'.tmp == s.tmp
      && Read(s'.mem, x) == Cell(s.mem, s'.sp, s.q, Stacked(regs), x)
    decreases |regs|
  {
    if |regs| == 1 {
      StoreIs(s.mem, s.sp - 16, s.q, [regs[0]], x);
      assert regs == [regs[0]];
    } else if |regs| > 1 {
      var i, top, rest := StpPre(regs[0], regs[1], -32), regs[..2], regs[2..];
      assert top == [regs[0], regs[1]];
      RunConcat(s, [i], PushPairs(rest));
      var s1 := Exec(s, i);
      PushPairsDo(rest, s1, x);
      StackedSize(rest);
      PushedCells(s.mem, s1.mem, s.sp, s.q, Stacked(rest), top, x);
    }
  }

  // Two registers pushed first, and the others below.
  lemma PushedCells(mem: map<int, nat>, mem1: map<int, nat>, sp: int, q: seq<nat>, low: seq<nat>, top: seq<nat>, x: int)
    requires |top| == 2 && mem1 == Store(mem, sp - 32, q, top)
    ensures var a := sp - 32 - 16 * |low|; Cell(mem1, a, q, low, x) == Cell(mem, a, q, low + top, x)
  {
    StoreIs(mem, sp - 32, q, top, x);
    CellConcat(mem, mem1, sp - 32 - 16 * |low|, q, low, top, x);
  }

  // Cells below others.
  lemma CellConcat(mem: map<int, nat>, mem1: map<int, nat>, a: int, q: seq<nat>, low: seq<nat>, high: seq<nat>, x: int)
    requires Read(mem1, x) == Cell(mem, a + 16 * |low|, q, high, x)
    ensures Cell(mem1, a, q, low, x) == Cell(mem, a, q, low + high, x)
  {
    var k, b := (x - a) / 16, a + 16 * |low|;
    if b <= x && (x - a) % 16 == 0 {
      Shifted(x - a, |low|);
    } else if b <= x {
      Shifted(x - a, |low|);
    }
  }

  lemma Shifted(d: int, n: nat)
    ensures (d - 16 * n) % 16 == d % 16 && (d - 16 * n) / 16 == d / 16 - n
  {}

  // ------------------------------------------------------------ loading

  lemma {:induction false} LoadConcat(q: seq<nat>, mem: map<int, nat>, a: int, r1: seq<nat>, r2: seq<nat>)
    ensures Load(q, mem, a, r1 + r2) == Load(Load(q, mem, a, r1), mem, a + 16 * |r1|, r2)
    decreases |r1|
  {
    if r1 == [] {
      assert r1 + r2 == r2;
    } else {
      assert (r1 + r2)[1..] == r1[1..] + r2;
      LoadConcat(if r1[0] < |q| then q[r1[0] := Read(mem, a)] else q, mem, a + 16, r1[1..], r2);
    }
  }

  function Loaded(s: State, regs: seq<nat>): State {
    s.(q := Load(s.q, s.mem, s.sp, regs), sp := s.sp + 16 * |regs|)
  }

  lemma LoadedConcat(s: State, r1: seq<nat>, r2: seq<nat>)
    ensures Loaded(Loaded(s, r1), r2) == Loaded(s, r1 + r2)
  {
    LoadConcat(s.q, s.mem, s.sp, r1, r2);
  }

  lemma {:induction false} LoadRunsDo(m: nat, i: nat, s: State)
    ensures Run(s, LoadRuns(m, i)) == Loaded(s, InRuns(m, i))
    decreases 32 - i
  {
    if i < 32 {
      if !Bit(m, i) {
        LoadRunsDo(m, i + 1, s);
      } else {
        var c := RunLength(m, i);
        if c > 1 {
          var s1 := Exec(s, Ld1(c, i));
          RunConcat(s, [Ld1(c, i)], LoadRuns(m, i + c));
          LoadRunsDo(m, i + c, s1);
          LoadedConcat(s, Range(i, c), InRuns(m, i + c));
        } else {
          assert [] + LoadRuns(m, i + c) == LoadRuns(m, i + c) && [] + InRuns(m, i + c) == InRuns(m, i + c);
          LoadRunsDo(m, i + c, s);
        }
      }
    }
  }

  lemma {:induction false} LoadPairsDo(regs: seq<nat>, s: State)
    ensures Run(s, LoadPairs(regs)) == Loaded(s, regs)
    decreases |regs|
  {
    if |regs| == 1 {
      assert regs == [regs[0]];
    } else if |regs| > 1 {
      RunConcat(s, [LdpPost(regs[0], regs[1], 32)], LoadPairs(regs[2..]));
      LoadPairsDo(regs[2..], Exec(s, LdpPost(regs[0], regs[1], 32)));
      LoadedConcat(s, [regs[0], regs[1]], regs[2..]);
      assert [regs[0], regs[1]] + regs[2..] == regs;
    }
  }

  // The top of the stack, seen from the end of the list.
  lemma {:induction false} StackedTop(regs: seq<nat>)
    requires regs != []
    ensures var k := Cut2(|regs|); Stacked(regs) == regs[k..] + Stacked(regs[..k])
    decreases |regs|
  {
    var n, k := |regs|, Cut2(|regs|);
    if n == 1 {
      assert regs[..0] == [] && regs[0..] == regs;
    } else if n == 2 {
      assert regs[..0] == [] && regs[0..] == regs && regs[2..] == [] && regs[..2] == regs;
    } else {
      StackedTop(regs[2..]);
      TwoOff(regs, k);
      Between(regs[k..], Stacked(regs[..k][2..]), regs[..2]);
    }
  }

  lemma TwoOff(regs: seq<nat>, k: nat)
    requires 2 <= k <= |regs|
    ensures regs[2..][..k - 2] == regs[..k][2..] && regs[..k][..2] == regs[..2] && regs[2..][k - 2..] == regs[k..]
  {}

  lemma Between(a: seq<nat>, b: seq<nat>, c: seq<nat>)
    ensures a + b + c == a + (b + c)
  {}

  lemma {:induction false} PopPairsDo(regs: seq<nat>, s: State)
    ensures Run(s, PopPairs(regs)) == Loaded(s, Stacked(regs))
    decreases |regs|
  {
    if regs != [] {
      var k := Cut2(|regs|);
      var top, rest := regs[k..], regs[..k];
      StackedTop(regs);
      RunConcat(s, [LoadTop(top)], PopPairs(rest));
      LoadTopDoes(s, top);
      PopPairsDo(rest, Loaded(s, top));
      LoadedConcat(s, top, Stacked(rest));
    }
  }

  lemma LoadTopDoes(s: State, top: seq<nat>)
    requires 1 <= |top| <= 2
    ensures Run(s, [LoadTop(top)]) == Loaded(s, top)
  {
    assert top == if |top| == 1 then [top[0]] else [top[0], top[1]];
    assert Run(s, [LoadTop(top)]) == Run(Exec(s, LoadTop(top)), []);
  }

  // Loading what the cells hold.
  lemma {:induction false} LoadIs(q: seq<nat>, mem: map<int, nat>, a: int, regs: seq<nat>, v: seq<nat>, r: nat)
    requires |q| == |v| == 32 && r < 32
    requires forall k :: 0 <= k < |regs| ==> regs[k] < 32 && Read(mem, a + 16 * k) == v[regs[k]]
    ensures Load(q, mem, a, regs)[r] == if r in regs then v[r] else q[r]
    decreases |regs|
  {
    if regs != [] {
      forall k | 0 <= k < |regs[1..]|
        ensures Read(mem, (a + 16) + 16 * k) == v[regs[1..][k]]
      {
        assert regs[1..][k] == regs[k + 1] && a + 16 * (k + 1) == (a + 16) + 16 * k;
      }
      LoadIs(q[regs[0] := Read(mem, a)], mem, a + 16, regs[1..], v, r);
      assert Read(mem, a + 16 * 0) == v[regs[0]];
    }
  }

  // ------------------------------------------------------------ every register has one cell

  lemma RunAscending(m: nat, i: nat)
    requires i < 32 && Bit(m, i)
    ensures i + RunLength(m, i) <= 32
        && Ascending(m, i) == Range(i, RunLength(m, i)) + Ascending(m, i + RunLength(m, i))
  {
    AscendingRun(m, i, RunLength(m, i));
  }

  lemma {:induction false} AscendingRun(m: nat, i: nat, n: nat)
    requires i + n <= 32 && forall k: nat :: i <= k < i + n ==> Bit(m, k)
    ensures Ascending(m, i) == Range(i, n) + Ascending(m, i + n)
    decreases n
  {
    if n == 0 {
      assert Range(i, 0) == [];
    } else {
      AscendingRun(m, i + 1, n - 1);
      RangeHead(i, n);
      assert Ascending(m, i) == [i] + Ascending(m, i + 1);
      Longer(i, Range(i + 1, n - 1), Ascending(m, i + n));
    }
  }

  lemma RangeHead(i: nat, n: nat)
    requires n > 0
    ensures Range(i, n) == [i] + Range(i + 1, n - 1)
  {}

  lemma Longer(i: nat, run: seq<nat>, rest: seq<nat>)
    ensures [i] + (run + rest) == [i] + run + rest
  {}

  lemma SplitRun(run: seq<nat>, first: bool, a: seq<nat>, b: seq<nat>, all: seq<nat>, a': seq<nat>, b': seq<nat>,
                 all': seq<nat>)
    requires multiset(a) + multiset(b) == multiset(all)
    requires a' == (if first then run + a else a) && b' == (if first then b else run + b) && all' == run + all
    ensures multiset(a') + multiset(b') == multiset(all')
  {}

  lemma {:induction false} RunsAndIslands(m: nat, i: nat)
    ensures multiset(InRuns(m, i)) + multiset(Islands(m, i)) == multiset(Ascending(m, i))
    decreases 32 - i
  {
    if i < 32 {
      if !Bit(m, i) {
        RunsAndIslands(m, i + 1);
      } else {
        RunsAndIslands(m, i + RunLength(m, i));
        RunSplits(m, i, i + RunLength(m, i));
      }
    }
  }

  lemma RunSplits(m: nat, i: nat, next: nat)
    requires i < 32 && Bit(m, i) && next == i + RunLength(m, i)
    requires multiset(InRuns(m, next)) + multiset(Islands(m, next)) == multiset(Ascending(m, next))
    ensures multiset(InRuns(m, i)) + multiset(Islands(m, i)) == multiset(Ascending(m, i))
  {
    TurnRegs(m, i);
    var run, first := Range(i, next - i), next - i > 1;
    SplitRun(run, first, InRuns(m, next), Islands(m, next), Ascending(m, next), InRuns(m, i), Islands(m, i),
      Ascending(m, i));
  }

  lemma TurnRegs(m: nat, i: nat)
    requires i < 32 && Bit(m, i)
    ensures var c := RunLength(m, i); var run := Range(i, c);
      && Ascending(m, i) == run + Ascending(m, i + c)
      && InRuns(m, i) == (if c > 1 then run + InRuns(m, i + c) else InRuns(m, i + c))
      && Islands(m, i) == (if c > 1 then Islands(m, i + c) else run + Islands(m, i + c))
  {
    RunAscending(m, i);
    var c := RunLength(m, i);
    assert Range(i, 1) == [i];
    assert [] + InRuns(m, i + c) == InRuns(m, i + c) && [] + Islands(m, i + c) == Islands(m, i + c);
  }

  lemma {:induction false} StackedKeeps(regs: seq<nat>)
    ensures multiset(Stacked(regs)) == multiset(regs)
    decreases |regs|
  {
    if |regs| >= 2 {
      StackedKeeps(regs[2..]);
      assert regs == regs[..2] + regs[2..];
    }
  }

  // The layout lists every register of the set once, and nothing else.
  lemma LayoutIs(m: nat, hasTmp: bool)
    requires m < Pow2(32)
    ensures multiset(Layout(m, hasTmp)) == multiset(Ascending(m, 0)) && |Layout(m, hasTmp)| == PopCount(m)
    ensures forall r: nat :: r in Layout(m, hasTmp) <==> r < 32 && Bit(m, r)
    ensures forall j, k :: 0 <= j < k < |Layout(m, hasTmp)| ==> Layout(m, hasTmp)[j] != Layout(m, hasTmp)[k]
  {
    var regs, all := Layout(m, hasTmp), Ascending(m, 0);
    if HasRun(m) && hasTmp { RunsAndIslands(m, 0); } else { StackedKeeps(all); }
    assert multiset(regs) == multiset(all);
    assert |multiset(regs)| == |regs| && |multiset(all)| == |all|;
    CountIsSize(m, 0);
    AscendingIs(m, 0);
    forall r: nat
      ensures r in regs <==> r < 32 && Bit(m, r)
    {
      assert r in regs <==> r in multiset(all);
      if r < 32 && Bit(m, r) { AscendingHasAll(m, 0, r); }
    }
    SameDistinct(all, regs);
  }

  lemma SameDistinct(a: seq<nat>, b: seq<nat>)
    requires multiset(a) == multiset(b) && forall j, k :: 0 <= j < k < |a| ==> a[j] < a[k]
    ensures forall j, k :: 0 <= j < k < |b| ==> b[j] != b[k]
  {
    forall j, k | 0 <= j < k < |b|
      ensures b[j] != b[k]
    {
      if b[j] == b[k] {
        TwiceCounts(b, j, k);
        OnceCounts(a, b[j]);
      }
    }
  }

  lemma TwiceCounts(b: seq<nat>, j: nat, k: nat)
    requires j < k < |b| && b[j] == b[k]
    ensures multiset(b)[b[j]] >= 2
  {
    assert b == b[..j] + [b[j]] + b[j + 1..k] + [b[k]] + b[k + 1..];
  }

  lemma {:induction false} OnceCounts(a: seq<nat>, x: nat)
    requires forall j, k :: 0 <= j < k < |a| ==> a[j] < a[k]
    ensures multiset(a)[x] <= 1
  {
    if a != [] {
      var n := |a| - 1;
      OnceCounts(a[..n], x);
      assert a == a[..n] + [a[n]];
      if a[n] == x { assert x !in a[..n]; }
    }
  }

  // ------------------------------------------------------------ push and pop

  lemma StartRuns(s: State, size: int)
    ensures Run(s, [SubSp(size), MoveSp]) == s.(sp := s.sp - size, tmp := s.sp - size)
  {
    assert [SubSp(size), MoveSp][1..] == [MoveSp] && [MoveSp][1..] == [];
    assert Run(s.(sp := s.sp - size), [MoveSp]) == s.(sp := s.sp - size, tmp := s.sp - size);
  }

  // Pushing lowers SP by 16 bytes a register, writes each register of the set to its own cell
  // above the new SP and nothing else, whichever way is taken.
  lemma PushDoes(m: nat, hasTmp: bool, s: State, x: int)
    requires m < Pow2(32)
    ensures var s' := Run(s, PushInsts(m, hasTmp));
      && s'.sp == s.sp - 16 * PopCount(m) && s'.q == s.q && (!(HasRun(m) && hasTmp) ==> s'.tmp == s.tmp)
      && Read(s'.mem, x) == Cell(s.mem, s'.sp, s.q, Layout(m, hasTmp), x)
  {
    LayoutIs(m, hasTmp);
    CountIsSize(m, 0);
    if HasRun(m) && hasTmp {
      var start := [SubSp(PopCount(m) * 16), MoveSp];
      var s1 := s.(sp := s.sp - PopCount(m) * 16, tmp := s.sp - PopCount(m) * 16);
      StartRuns(s, PopCount(m) * 16);
      RunConcat(s, start + StoreRuns(m, 0), StorePairs(Islands(m, 0)));
      RunConcat(s, start, StoreRuns(m, 0));
      StoreRunsDo(m, 0, s1);
      StorePairsDo(Islands(m, 0), Stored(s1, InRuns(m, 0)));
      StoredConcat(s1, InRuns(m, 0), Islands(m, 0));
      StoreIs(s.mem, s1.tmp, s.q, Layout(m, hasTmp), x);
    } else {
      PushPairsDo(Ascending(m, 0), s, x);
    }
  }

  // Popping loads each register of the set from the cell push gives it, changes nothing else
  // and raises SP as much.
  lemma PopDoes(m: nat, hasTmp: bool, s: State)
    requires m < Pow2(32)
    ensures var s' := Run(s, PopInsts(m, hasTmp));
        s' == Loaded(s, Layout(m, hasTmp)) && s'.sp == s.sp + 16 * PopCount(m)
  {
    LayoutIs(m, hasTmp);
    if HasRun(m) && hasTmp {
      RunConcat(s, LoadRuns(m, 0), LoadPairs(Islands(m, 0)));
      LoadRunsDo(m, 0, s);
      LoadPairsDo(Islands(m, 0), Loaded(s, InRuns(m, 0)));
      LoadedConcat(s, InRuns(m, 0), Islands(m, 0));
    } else {
      PopPairsDo(Ascending(m, 0), s);
    }
  }

  lemma CellOf(mem: map<int, nat>, a: int, q: seq<nat>, regs: seq<nat>, k: nat)
    requires k < |regs|
    ensures Cell(mem, a, q, regs, a + 16 * k) == Reg(q, regs[k])
  {
    assert (a + 16 * k - a) / 16 == k;
  }

  // The registers lie from a up in mem', which is mem elsewhere.
  ghost predicate Spilled(mem': map<int, nat>, mem: map<int, nat>, a: int, q: seq<nat>, regs: seq<nat>) {
    forall x :: Read(mem', x) == Cell(mem, a, q, regs, x)
  }

  lemma PushSpills(m: nat, hasTmp: bool, s: State)
    requires m < Pow2(32)
    ensures var p := Run(s, PushInsts(m, hasTmp));
      p.sp == s.sp - 16 * PopCount(m) && Spilled(p.mem, s.mem, p.sp, s.q, Layout(m, hasTmp))
  {
    PushDoes(m, hasTmp, s, 0);
    forall x
      ensures Read(Run(s, PushInsts(m, hasTmp)).mem, x)
          == Cell(s.mem, Run(s, PushInsts(m, hasTmp)).sp, s.q, Layout(m, hasTmp), x)
    {
      PushDoes(m, hasTmp, s, x);
    }
  }

  lemma SpilledCell(mem': map<int, nat>, mem: map<int, nat>, a: int, q: seq<nat>, regs: seq<nat>, k: nat)
    requires Spilled(mem', mem, a, q, regs) && k < |regs|
    ensures Read(mem', a + 16 * k) == Reg(q, regs[k])
  {
    CellOf(mem, a, q, regs, k);
  }

  // t is any state the code in between may leave: the registers are free, SP is back where push
  // left it and the pushed cells are untouched.  Then pop restores every register of the set,
  // keeps the others, and SP is back where it was before push.
  lemma PopUndoesPush(m: nat, hasTmp: bool, s: State, t: State, r: nat)
    requires m < Pow2(32) && IsState(s) && IsState(t) && r < 32
    requires var p := Run(s, PushInsts(m, hasTmp));
      t.sp == p.sp && forall k :: 0 <= k < PopCount(m) ==> Read(t.mem, p.sp + 16 * k) == Read(p.mem, p.sp + 16 * k)
    ensures var t' := Run(t, PopInsts(m, hasTmp));
      t'.sp == s.sp && t'.mem == t.mem && |t'.q| == 32 && t'.q[r] == if Bit(m, r) then s.q[r] else t.q[r]
  {
    LayoutIs(m, hasTmp);
    PushSpills(m, hasTmp, s);
    var regs, sp, p := Layout(m, hasTmp), t.sp, Run(s, PushInsts(m, hasTmp));
    assert |regs| == PopCount(m);
    CellsKept(regs, p.mem, s.mem, t.mem, sp, s.q);
    PopDoes(m, hasTmp, t);
    LoadIs(t.q, t.mem, sp, regs, s.q, r);
    assert r in regs <==> Bit(m, r);
  }

  lemma CellsKept(regs: seq<nat>, pushed: map<int, nat>, mem: map<int, nat>, kept: map<int, nat>, sp: int, q: seq<nat>)
    requires |q| == 32 && Spilled(pushed, mem, sp, q, regs) && forall r :: r in regs ==> r < 32
    requires forall k :: 0 <= k < |regs| ==> Read(kept, sp + 16 * k) == Read(pushed, sp + 16 * k)
    ensures forall k :: 0 <= k < |regs| ==> regs[k] < 32 && Read(kept, sp + 16 * k) == q[regs[k]]
  {
    forall k | 0 <= k < |regs|
      ensures regs[k] < 32 && Read(kept, sp + 16 * k) == q[regs[k]]
    {
      SpilledCell(pushed, mem, sp, q, regs, k);
      assert regs[k] in regs;
    }
  }

  // ------------------------------------------------------------ the emitter

  method CountRun(m: nat, i: nat) returns (count: nat)
    requires i < 32 && Bit(m, i)
    ensures count == RunLength(m, i)
  {
    count := 1;
    while count < 4 && i + count < 32 && Bit(m, i + count)
      invariant 1 <= count <= 4 && (count > 1 ==> i + 1 < 32 && Bit(m, i + 1))
      invariant (count > 2 ==> i + 2 < 32 && Bit(m, i + 2)) && (count > 3 ==> i + 3 < 32 && Bit(m, i + 3))
    {
      count := count + 1;
    }
  }

  method HasBundle(m: nat) returns (bundled: bool)
    ensures bundled == HasRun(m)
  {
    bundled := false;
    var i := 0;
    while i < 32
      invariant i <= 32 && !bundled && forall j: nat :: j < i && j < 31 ==> !(Bit(m, j) && Bit(m, j + 1))
    {
      if Bit(m, i) {
        var count := CountRun(m, i);
        if count > 1 {
          bundled := true;
          break;
        }
      }
      i := i + 1;
    }
  }

  function RunInsts(m: nat, i: nat, store: bool): seq<Inst> { if store then StoreRuns(m, i) else LoadRuns(m, i) }

  // One run, off the front of what is to be emitted.
  lemma TurnInsts(m: nat, i: nat, store: bool, code: seq<Inst>, islands: seq<nat>)
    requires i < 32 && Bit(m, i)
    ensures var c := RunLength(m, i);
      && i + c <= 32
      && (if c == 1 then code else code + [if store then St1(c, i) else Ld1(c, i)]) + RunInsts(m, i + c, store)
        == code + RunInsts(m, i, store)
      && (if c == 1 then islands + [i] else islands) + Islands(m, i + c) == islands + Islands(m, i)
  {
    RunAscending(m, i);
    var c := RunLength(m, i);
    var inst, rest := if store then St1(c, i) else Ld1(c, i), RunInsts(m, i + c, store);
    if c == 1 {
      assert RunInsts(m, i, store) == [] + rest == rest;
      assert (islands + [i]) + Islands(m, i + c) == islands + ([i] + Islands(m, i + c));
    } else {
      assert RunInsts(m, i, store) == [inst] + rest;
      assert (code + [inst]) + rest == code + ([inst] + rest);
      assert Islands(m, i) == [] + Islands(m, i + c) == Islands(m, i + c);
    }
  }

  class FloatEmitter {
    var code: seq<Inst>

    constructor ()
      ensures code == []
    {
      code := [];
    }

    method Emit(i: Inst)
      modifies this
      ensures code == old(code) + [i]
    {
      code := code + [i];
    }

    // The runs, stored or loaded on the way; what is left are the islands.
    method EmitRuns(m: nat, store: bool) returns (islandRegs: seq<nat>)
      modifies this
      ensures code == old(code) + RunInsts(m, 0, store) && islandRegs == Islands(m, 0)
    {
      islandRegs := [];
      var i := 0;
      while i < 32
        invariant i <= 32 && islandRegs + Islands(m, i) == Islands(m, 0)
        invariant code + RunInsts(m, i, store) == old(code) + RunInsts(m, 0, store)
        decreases 32 - i
      {
        if Bit(m, i) {
          var count := CountRun(m, i);
          ghost var code0, islands0 := code, islandRegs;
          if count == 1 {
            islandRegs := islandRegs + [i];
          } else {
            Emit(if store then St1(count, i) else Ld1(count, i));
          }
          TurnInsts(m, i, store, code0, islands0);
          i := i + count - 1;
        }
        i := i + 1;
      }
    }

    // The islands in pairs, through tmp.
    method StoreIslands(islandRegs: seq<nat>)
      modifies this
      ensures code == old(code) + StorePairs(islandRegs)
    {
      var pairRegs := [];
      assert pairRegs + islandRegs[0..] == islandRegs;
      for k := 0 to |islandRegs|
        invariant |pairRegs| < 2 && code + StorePairs(pairRegs + islandRegs[k..]) == old(code) + StorePairs(islandRegs)
      {
        ghost var rest := pairRegs + islandRegs[k..];
        pairRegs := pairRegs + [islandRegs[k]];
        assert rest == pairRegs + islandRegs[k + 1..];
        if |pairRegs| == 2 {
          assert rest[2..] == [] + islandRegs[k + 1..] && rest[0] == pairRegs[0] && rest[1] == pairRegs[1];
          Emit(StpPost(pairRegs[0], pairRegs[1], 32));
          pairRegs := [];
        }
      }
      assert pairRegs + islandRegs[|islandRegs|..] == pairRegs;
      if |pairRegs| > 0 { Emit(StrPost(pairRegs[0], 16)); }
    }

    method LoadIslands(islandRegs: seq<nat>)
      modifies this
      ensures code == old(code) + LoadPairs(islandRegs)
    {
      var pairRegs := [];
      assert pairRegs + islandRegs[0..] == islandRegs;
      for k := 0 to |islandRegs|
        invariant |pairRegs| < 2 && code + LoadPairs(pairRegs + islandRegs[k..]) == old(code) + LoadPairs(islandRegs)
      {
        ghost var rest := pairRegs + islandRegs[k..];
        pairRegs := pairRegs + [islandRegs[k]];
        assert rest == pairRegs + islandRegs[k + 1..];
        if |pairRegs| == 2 {
          assert rest[2..] == [] + islandRegs[k + 1..] && rest[0] == pairRegs[0] && rest[1] == pairRegs[1];
          Emit(LdpPost(pairRegs[0], pairRegs[1], 32));
          pairRegs := [];
        }
      }
      assert pairRegs + islandRegs[|islandRegs|..] == pairRegs;
      if |pairRegs| > 0 { Emit(LdrPost(pairRegs[0], 16)); }
    }

    // Without tmp or runs: in pairs, lowering SP each time.
    method PushOnStack(registers: seq<nat>)
      modifies this
      ensures code == old(code) + PushPairs(registers)
    {
      var pairRegs := [];
      assert pairRegs + registers[0..] == registers;
      for k := 0 to |registers|
        invariant |pairRegs| < 2 && code + PushPairs(pairRegs + registers[k..]) == old(code) + PushPairs(registers)
      {
        ghost var rest := pairRegs + registers[k..];
        pairRegs := pairRegs + [registers[k]];
        assert rest == pairRegs + registers[k + 1..];
        if |pairRegs| == 2 {
          assert rest[2..] == [] + registers[k + 1..] && rest[0] == pairRegs[0] && rest[1] == pairRegs[1];
          Emit(StpPre(pairRegs[0], pairRegs[1], -32));
          pairRegs := [];
        }
      }
      assert pairRegs + registers[|registers|..] == pairRegs;
      if |pairRegs| > 0 { Emit(StrPre(pairRegs[0], -16)); }
    }

    // And back, from the highest register down.
    method PopFromStack(m: nat, numRegs: nat)
      requires numRegs == |Ascending(m, 0)|
      modifies this
      ensures code == old(code) + PopPairs(Ascending(m, 0))
    {
      BelowIs(m, 32);
      var odd := numRegs % 2 != 0;
      var pairRegs := [];
      assert Below(m, 32) + [] == Ascending(m, 0);
      var i := 32;
      while i > 0
        invariant i <= 32 && |pairRegs| < 2 && (odd ==> pairRegs == [])
        invariant |Below(m, i)| % 2 == if odd then 1 else |pairRegs|
        invariant code + PopPairs(Below(m, i) + pairRegs) == old(code) + PopPairs(Ascending(m, 0))
      {
        i := i - 1;
        odd, pairRegs := PopTurned(m, i, odd, pairRegs);
      }
      assert Below(m, 0) + pairRegs == [];
    }

    // One turn of the loop, the registers below still to come.
    method PopTurned(m: nat, i: nat, odd: bool, pairRegs: seq<nat>) returns (odd': bool, pairRegs': seq<nat>)
      requires |pairRegs| < 2 && (odd ==> pairRegs == []) && |Below(m, i + 1)| % 2 == if odd then 1 else |pairRegs|
      modifies this
      ensures |pairRegs'| < 2 && (odd' ==> pairRegs' == []) && |Below(m, i)| % 2 == if odd' then 1 else |pairRegs'|
      ensures code + PopPairs(Below(m, i) + pairRegs') == old(code) + PopPairs(Below(m, i + 1) + pairRegs)
    {
      ghost var rest := Below(m, i);
      BelowNext(m, i);
      odd', pairRegs' := odd, pairRegs;
      if Bit(m, i) {
        PopTurn(rest, i, pairRegs, odd);
        Reassociate(code, TurnEmits(odd, pairRegs, i), PopPairs(rest + TurnLeaves(odd, pairRegs, i)));
        odd', pairRegs' := PopOneRegister(i, odd, pairRegs);
      }
    }

    // The register left over, half a pair, or a whole one.
    method PopOneRegister(i: nat, odd: bool, pairRegs: seq<nat>) returns (odd': bool, pairRegs': seq<nat>)
      requires |pairRegs| < 2 && (odd ==> pairRegs == [])
      modifies this
      ensures !odd' && pairRegs' == TurnLeaves(odd, pairRegs, i) && code == old(code) + TurnEmits(odd, pairRegs, i)
    {
      odd', pairRegs' := odd, pairRegs;
      if odd' {
        odd' := false;
        Emit(LdrPost(i, 16));
      } else {
        pairRegs' := pairRegs' + [i];
        if |pairRegs'| == 2 {
          Emit(LdpPost(pairRegs'[1], pairRegs'[0], 32));
          pairRegs' := [];
        }
      }
    }

    method ABI_PushRegisters(m: nat, hasTmp: bool)
      requires m < Pow2(32)
      modifies this
      ensures code == old(code) + PushInsts(m, hasTmp)
    {
      var bundled := HasBundle(m);
      if bundled && hasTmp {
        var numRegs := CountSetBits(m);
        Emit(SubSp(numRegs * 16));
        Emit(MoveSp);
        var islandRegs := EmitRuns(m, true);
        StoreIslands(islandRegs);
      } else {
        var registers := Elements(m);
        PushOnStack(registers);
      }
    }

    method ABI_PopRegisters(m: nat, hasTmp: bool)
      requires m < Pow2(32)
      modifies this
      ensures code == old(code) + PopInsts(m, hasTmp)
    {
      var numRegs := CountSetBits(m);
      var bundled := HasBundle(m);
      if bundled && hasTmp {
        var islandRegs := EmitRuns(m, false);
        LoadIslands(islandRegs);
      } else {
        CountIsSize(m, 0);
        PopFromStack(m, numRegs);
      }
    }
  }

  lemma PopSnoc(rest: seq<nat>, top: seq<nat>)
    requires |rest| % 2 == 0 && 1 <= |top| <= 2
    ensures PopPairs(rest + top) == [LoadTop(top)] + PopPairs(rest)
  {
    var regs := rest + top;
    assert Cut2(|regs|) == |rest|;
    assert regs[|rest|..] == top && regs[..|rest|] == rest;
  }

  // One turn of the loop over register i: what it emits, and what it leaves pending.
  function TurnEmits(odd: bool, pairRegs: seq<nat>, i: nat): seq<Inst> {
    if odd then [LdrPost(i, 16)] else if pairRegs == [] then [] else [LdpPost(i, pairRegs[0], 32)]
  }

  function TurnLeaves(odd: bool, pairRegs: seq<nat>, i: nat): seq<nat> {
    if !odd && pairRegs == [] then [i] else []
  }

  lemma SnocForms(rest: seq<nat>, i: nat, h: nat)
    ensures rest + [i] + [] == rest + [i] && rest + [] == rest && rest + [i] + [h] == rest + [i, h]
  {}

  // One register, off the end of what is to be emitted.
  lemma PopTurn(rest: seq<nat>, i: nat, pairRegs: seq<nat>, odd: bool)
    requires |pairRegs| < 2 && (odd ==> pairRegs == []) && |rest| % 2 == if odd then 0 else 1 - |pairRegs|
    ensures PopPairs(rest + [i] + pairRegs)
        == TurnEmits(odd, pairRegs, i) + PopPairs(rest + TurnLeaves(odd, pairRegs, i))
  {
    var h := if pairRegs == [] then 0 else pairRegs[0];
    assert pairRegs == [] || pairRegs == [h];
    SnocForms(rest, i, h);
    if odd {
      PopSnoc(rest, [i]);
    } else if pairRegs != [] {
      PopSnoc(rest, [i, h]);
    }
  }

  lemma Reassociate(a: seq<Inst>, b: seq<Inst>, c: seq<Inst>)
    ensures a + (b + c) == a + b + c
  {}

  // The elements below i.
  function Below(m: nat, i: nat): seq<nat> {
    if i == 0 then [] else Below(m, i - 1) + if Bit(m, i - 1) then [i - 1] else []
  }

  lemma BelowNext(m: nat, i: nat)
    ensures Below(m, i + 1) == if Bit(m, i) then Below(m, i) + [i] else Below(m, i)
  {}

  lemma {:induction false} BelowIs(m: nat, i: nat)
    requires i <= 32
    ensures Below(m, i) + Ascending(m, i) == Ascending(m, 0)
  {
    if i > 0 { BelowIs(m, i - 1); }
  }
}
