/** MOVI2R, ADDI2R, SUBI2R, ANDI2R, ORI2R, EORI2R and CMPI2R of Common/ArmEmitter.cpp: executing
    what they emit does what their names say, for every constant and every register content, with
    and without ARMv7.  HAVE_ARMV7, a compile-time switch, is a field here. */
module ArmConstants {
  import opened Words
  import opened ArmImmediates
  import opened ArmMachine

  // ------------------------------------------------------------ what a sequence leaves behind

  // v in rd, everything else as it was.
  ghost predicate Loads(insts: seq<Inst>, rd: nat, v: nat) {
    rd < 15 && v < TWO32 && forall s: State :: IsState(s) ==> Run(s, insts) == Write(s, rd, v)
  }

  // rs op v in rd, everything else as it was.
  ghost predicate Computes(insts: seq<Inst>, op: AluOp, rd: nat, rs: nat, v: nat) {
    && rd < 15 && rs < 15 && v < TWO32
    && forall s: State :: IsState(s) ==> Run(s, insts) == Write(s, rd, Result(op, s.r[rs], v))
  }

  // The same by way of the scratch register, which is left holding v.
  ghost predicate ComputesVia(insts: seq<Inst>, op: AluOp, rd: nat, rs: nat, v: nat, scratch: nat) {
    && rd < 15 && rs < 15 && scratch < 15 && v < TWO32
    && forall s: State :: IsState(s) ==> Run(s, insts) == Write(Write(s, scratch, v), rd, Result(op, s.r[rs], v))
  }

  lemma OneRun(s: State, i: Inst)
    ensures Run(s, [i]) == Exec(s, i)
  {
    assert [i][..0] == [];
    assert Run(s, [i][..0]) == s;
  }

  lemma WriteWrite(s: State, rd: nat, v: nat, w: nat)
    ensures Write(Write(s, rd, v), rd, w) == Write(s, rd, w)
  {
    if rd < |s.r| { assert s.r[rd := v][rd := w] == s.r[rd := w]; }
  }

  // ------------------------------------------------------------ operands taken together

  function OrAll(ops: seq<Operand2>): nat {
    if ops == [] then 0 else Or(OrAll(ops[..|ops| - 1]), OperandValue(ops[|ops| - 1], []))
  }

  ghost predicate AllImm(ops: seq<Operand2>)
  {
    forall k :: 0 <= k < |ops| ==> IsImm(ops[k]) && OperandValue(ops[k], []) < TWO32
  }

  lemma ImmFits(op2: Operand2)
    requires IsImm(op2)
    ensures OperandValue(op2, []) < TWO32 && forall r: seq<nat> :: OperandValue(op2, r) == OperandValue(op2, [])
  {
    Fits(op2.imm8, 2 * op2.rotation);
  }

  // ------------------------------------------------------------ eight-bit windows

  // The window over bits i to i + 7 of w, going round the end.
  function Window(w: nat, i: nat): Operand2
    requires i < 32
  {
    Imm(RotR(w, i) % 0x100, if i == 0 then 0 else 16 - i / 2)
  }

  // A window's byte, bit by bit.
  lemma WindowByte(w: nat, i: nat, k: nat)
    requires w < TWO32 && i < 32 && k < 32
    ensures Bit(RotR(w, i) % 0x100, k) <==> k < 8 && Bit(w, if k + i < 32 then k + i else k + i - 32)
  {
    WordPowers();
    RotRBit(w, i, k);
    if k < 8 { BitMod(RotR(w, i), 8, k); } else { BitBelow(RotR(w, i) % 0x100, 8, k); }
  }

  lemma WindowBits(w: nat, i: nat, j: nat)
    requires w < TWO32 && i < 32 && i % 2 == 0 && j < 32
    ensures IsImm(Window(w, i)) && OperandValue(Window(w, i), []) < TWO32
    ensures Bit(OperandValue(Window(w, i), []), j) <==> Bit(w, j) && (if j < i then j + 32 - i else j - i) < 8
  {
    ImmBit(RotR(w, i) % 0x100, if i == 0 then 0 else 16 - i / 2, j);
    WindowByte(w, i, if j < i then j + 32 - i else j - i);
  }

  lemma WindowStarts(w: nat, i: nat)
    requires w < TWO32 && i < 31
    ensures RotR(w, i) % 0x100 % 4 == 0 <==> !Bit(w, i) && !Bit(w, i + 1)
  {
    var x := RotR(w, i);
    RotRBit(w, i, 0);
    RotRBit(w, i, 1);
    LowTwoBits(x);
  }

  lemma LowTwoBits(x: nat)
    ensures x % 0x100 % 4 == 0 <==> !Bit(x, 0) && !Bit(x, 1)
  {
    Digits(x, 4, 64);
    Digits(x, 2, 2);
    ModUnique(x % 0x100, 4, x / 4 % 64, x % 4);
    assert Bit(x, 1) <==> Bit(x / 2, 0);
  }

  // acc has only bits of w, and all of those below i.
  ghost predicate Gathered(acc: nat, w: nat, i: nat) {
    && acc < TWO32
    && (forall j: nat :: j < 32 && Bit(acc, j) ==> Bit(w, j))
    && (forall j: nat :: j < 32 && j < i && Bit(w, j) ==> Bit(acc, j))
  }

  lemma GatherWindow(acc: nat, w: nat, i: nat)
    requires w < TWO32 && i < 32 && i % 2 == 0 && Gathered(acc, w, i)
    ensures IsImm(Window(w, i)) && OperandValue(Window(w, i), []) < TWO32
        && Gathered(Or(acc, OperandValue(Window(w, i), [])), w, i + 8)
  {
    var v := OperandValue(Window(w, i), []);
    WindowBits(w, i, 0);
    Pow32();
    OrFits(acc, v, 32);
    forall j: nat | j < 32
      ensures Bit(Or(acc, v), j) <==> Bit(acc, j) || (Bit(w, j) && (if j < i then j + 32 - i else j - i) < 8)
    {
      BitOr(acc, v, j);
      WindowBits(w, i, j);
    }
  }

  lemma AllGathered(acc: nat, w: nat, i: nat)
    requires w < TWO32 && i >= 32 && Gathered(acc, w, i)
    ensures acc == w
  {
    SameWord(acc, w);
  }

  // One turn of the loop: a window taken, or a clear pair of bits skipped.
  lemma TakeWindow(ops: seq<Operand2>, w: nat, i: nat)
    requires w < TWO32 && i < 32 && i % 2 == 0 && AllImm(ops) && Gathered(OrAll(ops), w, i)
    ensures AllImm(ops + [Window(w, i)]) && Gathered(OrAll(ops + [Window(w, i)]), w, i + 8)
  {
    GatherWindow(OrAll(ops), w, i);
    assert (ops + [Window(w, i)])[..|ops|] == ops;
  }

  lemma SkipPair(acc: nat, w: nat, i: nat)
    requires w < TWO32 && i < 31 && Gathered(acc, w, i) && RotR(w, i) % 0x100 % 4 == 0
    ensures Gathered(acc, w, i + 2)
  {
    WindowStarts(w, i);
  }

  // The windows of the loops in MOVI2R, ANDI2R and ORI2R: skip clear pairs of bits, take eight bits
  // from any other.
  method Windows(w: nat) returns (ops: seq<Operand2>)
    requires w < TWO32
    ensures AllImm(ops) && OrAll(ops) == w
  {
    ops := [];
    var i := 0;
    BitsOfZero();
    while i < 32
      invariant i % 2 == 0 && AllImm(ops) && Gathered(OrAll(ops), w, i) == true
      decreases 40 - i
    {
      var bits := RotR(w, i) % 0x100;
      if bits % 4 != 0 {
        TakeWindow(ops, w, i);
        ops := ops + [Imm(bits, if i == 0 then 0 else 16 - i / 2)];
        i := i + 6;
      } else {
        SkipPair(OrAll(ops), w, i);
      }
      i := i + 2;
    }
    AllGathered(OrAll(ops), w, i);
  }

  lemma BitsOfZero()
    ensures forall j: nat :: !Bit(0, j)
  {
    forall j: nat
      ensures !Bit(0, j)
    {
      BitZero(j);
    }
  }

  // ------------------------------------------------------------ shifted windows

  // The eight bits of w from i up, not going round the end: TrySetValue_TwoOp.
  function ShiftedWindow(w: nat, i: nat): Operand2
    requires i < 16
  {
    Imm(Shr(w, 2 * i) % 0x100, (16 - i) % 16)
  }

  // The window's byte, bit by bit.
  lemma ShiftedByte(w: nat, n: nat, k: nat)
    requires w < TWO32 && k < 32
    ensures Bit(Shr(w, n) % 0x100, k) <==> k < 8 && n + k < 32 && Bit(w, n + k)
  {
    WordPowers();
    BitShr(w, n, k);
    if n + k >= 32 { BitAbove(w, k + n); }
    if k < 8 { BitMod(Shr(w, n), 8, k); } else { BitBelow(Shr(w, n) % 0x100, 8, k); }
  }

  lemma ImmBit(b: nat, r: nat, j: nat)
    requires b < 0x100 && r < 16 && j < 32
    ensures IsImm(Imm(b, r)) && OperandValue(Imm(b, r), []) < TWO32
    ensures Bit(OperandValue(Imm(b, r), []), j) <==> Bit(b, if j + 2 * r < 32 then j + 2 * r else j + 2 * r - 32)
  {
    ImmFits(Imm(b, r));
    RotRBit(b, 2 * r, j);
  }

  lemma RotatedBit(b: nat, i: nat, j: nat)
    requires b < 0x100 && i < 16 && j < 32
    ensures var op2 := Imm(b, (16 - i) % 16);
      IsImm(op2) && OperandValue(op2, []) < TWO32
        && (Bit(OperandValue(op2, []), j) <==> Bit(b, if j < 2 * i then j + 32 - 2 * i else j - 2 * i))
  {
    var r := (16 - i) % 16;
    assert r == if i == 0 then 0 else 16 - i;
    ImmBit(b, r, j);
  }

  lemma ShiftedBits(w: nat, i: nat, j: nat)
    requires w < TWO32 && i < 16 && j < 32
    ensures IsImm(ShiftedWindow(w, i)) && OperandValue(ShiftedWindow(w, i), []) < TWO32
    ensures Bit(OperandValue(ShiftedWindow(w, i), []), j) <==> Bit(w, j) && 2 * i <= j < 2 * i + 8
  {
    RotatedBit(Shr(w, 2 * i) % 0x100, i, j);
    ShiftedByte(w, 2 * i, if j < 2 * i then j + 32 - 2 * i else j - 2 * i);
  }

  lemma GatherShifted(acc: nat, w: nat, i: nat)
    requires w < TWO32 && i < 16 && Gathered(acc, w, 2 * i)
    ensures IsImm(ShiftedWindow(w, i)) && OperandValue(ShiftedWindow(w, i), []) < TWO32
    ensures Gathered(Or(acc, OperandValue(ShiftedWindow(w, i), [])), w, 2 * i + 8)
  {
    var v := OperandValue(ShiftedWindow(w, i), []);
    ShiftedBits(w, i, 0);
    Pow32();
    OrFits(acc, v, 32);
    forall j: nat | j < 32
      ensures Bit(Or(acc, v), j) <==> Bit(acc, j) || (Bit(w, j) && 2 * i <= j < 2 * i + 8)
    {
      BitOr(acc, v, j);
      ShiftedBits(w, i, j);
    }
  }

  lemma TakeShifted(ops: seq<Operand2>, w: nat, i: nat)
    requires w < TWO32 && i < 16 && AllImm(ops) && Gathered(OrAll(ops), w, 2 * i)
    ensures AllImm(ops + [ShiftedWindow(w, i)]) && Gathered(OrAll(ops + [ShiftedWindow(w, i)]), w, 2 * i + 8)
  {
    GatherShifted(OrAll(ops), w, i);
    assert (ops + [ShiftedWindow(w, i)])[..|ops|] == ops;
  }

  lemma SkipShifted(acc: nat, w: nat, i: nat)
    requires w < TWO32 && i < 16 && Gathered(acc, w, 2 * i) && Shr(w, 2 * i) % 4 == 0
    ensures Gathered(acc, w, 2 * i + 2)
  {
    BitShr(w, 2 * i, 0);
    BitShr(w, 2 * i, 1);
    var x := Shr(w, 2 * i);
    Digits(x, 2, 2);
    assert Bit(x, 1) <==> Bit(x / 2, 0);
  }

  // val is shifted right as the loop goes; i counts pairs of bits.
  method ShiftedWindows(w: nat) returns (ops: seq<Operand2>)
    requires w < TWO32
    ensures AllImm(ops) && OrAll(ops) == w && (w == 0 ==> ops == [])
  {
    ops := [];
    var i, val := 0, w;
    BitsOfZero();
    while i < 16
      invariant w == 0 ==> ops == []
      invariant AllImm(ops) && val == Shr(w, 2 * i) && Gathered(OrAll(ops), w, 2 * i) == true
      decreases 20 - i
    {
      if val % 4 != 0 {
        TakeTurn(ops, w, i, val);
        ops := ops + [Imm(val % 0x100, (16 - i) % 16)];
        i := i + 3;
        val := val / 4 / 4 / 4;
      } else {
        SkipTurn(OrAll(ops), w, i, val);
      }
      i, val := i + 1, val / 4;
    }
    AllGathered(OrAll(ops), w, 2 * i);
  }

  // A turn that takes a window, and one that does not.
  lemma TakeTurn(ops: seq<Operand2>, w: nat, i: nat, val: nat)
    requires w < TWO32 && i < 16 && AllImm(ops) && Gathered(OrAll(ops), w, 2 * i) == true
    requires val == Shr(w, 2 * i) && val % 4 != 0
    ensures var ops' := ops + [Imm(val % 0x100, (16 - i) % 16)];
      AllImm(ops') && Gathered(OrAll(ops'), w, 2 * (i + 4)) == true
    ensures Shr(w, 2 * (i + 4)) == val / 4 / 4 / 4 / 4 && w != 0
  {
    TakeShifted(ops, w, i);
    ShrEight(w, 2 * i, val);
    ShrZero(2 * i);
  }

  lemma SkipTurn(acc: nat, w: nat, i: nat, val: nat)
    requires w < TWO32 && i < 16 && Gathered(acc, w, 2 * i) == true && val == Shr(w, 2 * i) && val % 4 == 0
    ensures Gathered(acc, w, 2 * (i + 1)) == true && Shr(w, 2 * (i + 1)) == val / 4
  {
    SkipShifted(acc, w, i);
    ShrTwo(w, 2 * i);
  }

  lemma ShrEight(v: nat, i: nat, x: nat)
    requires x == Shr(v, i)
    ensures Shr(v, i + 8) == x / 4 / 4 / 4 / 4
  {
    ShrTwo(v, i);
    ShrTwo(v, i + 2);
    ShrTwo(v, i + 4);
    ShrTwo(v, i + 6);
  }

  lemma {:induction false} ShrZero(i: nat)
    ensures Shr(0, i) == 0
  {
    if i > 0 { ShrZero(i - 1); }
  }

  lemma ShrTwo(v: nat, i: nat)
    ensures Shr(v, i + 2) == Shr(v, i) / 4
  {
    ShrFacts(v, i);
    ShrFacts(v, i + 1);
    Digits(Shr(v, i), 2, 2);
  }

  // ------------------------------------------------------------ chains of immediates

  lemma {:induction false} OrAssociates(x: nat, a: nat, b: nat)
    ensures Or(Or(x, a), b) == Or(x, Or(a, b))
  {
    if x > 0 && a > 0 && b > 0 { OrAssociates(x / 2, a / 2, b / 2); }
  }

  lemma BitAndNot(x: nat, a: nat, i: nat)
    requires a < TWO32 && i < 32
    ensures Bit(And(x, Not32(a)), i) <==> Bit(x, i) && !Bit(a, i)
  {
    Pow32();
    BitAnd(x, Not32(a), i);
    BitNot(a, 32, i);
  }

  // Clearing in two steps.
  lemma BicBic(x: nat, a: nat, b: nat)
    requires x < TWO32 && a < TWO32 && b < TWO32
    ensures And(And(x, Not32(a)), Not32(b)) == And(x, Not32(Or(a, b)))
  {
    Pow32();
    OrFits(a, b, 32);
    AndFits(x, Not32(a));
    AndFits(And(x, Not32(a)), Not32(b));
    AndFits(x, Not32(Or(a, b)));
    forall i: nat | i < 32
      ensures Bit(And(And(x, Not32(a)), Not32(b)), i) <==> Bit(And(x, Not32(Or(a, b))), i)
    {
      BitAndNot(And(x, Not32(a)), b, i);
      BitAndNot(x, a, i);
      BitAndNot(x, Or(a, b), i);
      BitOr(a, b, i);
    }
    SameWord(And(And(x, Not32(a)), Not32(b)), And(x, Not32(Or(a, b))));
  }

  // What one more operand adds.
  function Combine(op: AluOp, a: nat, b: nat): nat { if op == ORR || op == BIC then Or(a, b) else (a + b) % TWO32 }

  predicate Chains(op: AluOp) { op == ORR || op == BIC || op == ADD || op == SUB }

  lemma ResultChains(op: AluOp, x: nat, a: nat, b: nat)
    requires Chains(op) && x < TWO32 && a < TWO32 && b < TWO32
    ensures Result(op, Result(op, x, a), b) == Result(op, x, Combine(op, a, b)) && Combine(op, a, b) < TWO32
  {
    Pow32();
    OrFits(a, b, 32);
    match op {
      case ORR => OrAssociates(x, a, b);
      case BIC => BicBic(x, a, b);
      case ADD => SumsWrap(x, a, b);
      case _ => DifferencesWrap(x, a, b);
    }
  }

  lemma SumsWrap(x: nat, a: nat, b: nat)
    requires x < TWO32 && a < TWO32 && b < TWO32
    ensures ((x + a) % TWO32 + b) % TWO32 == (x + (a + b) % TWO32) % TWO32
  {
    SumWraps(x + a);
    SumWraps(a + b);
  }

  lemma DifferencesWrap(x: nat, a: nat, b: nat)
    requires x < TWO32 && a < TWO32 && b < TWO32
    ensures ((x - a) % TWO32 - b) % TWO32 == (x - (a + b) % TWO32) % TWO32
  {
    SumWraps(x - a);
    SumWraps(a + b);
  }

  lemma SumWraps(x: int)
    requires -TWO32 <= x < 2 * TWO32
    ensures x % TWO32 == if x < 0 then x + TWO32 else if x < TWO32 then x else x - TWO32
  {}

  lemma ComputesOne(op: AluOp, rd: nat, rs: nat, op2: Operand2)
    requires rd < 15 && rs < 15 && IsImm(op2)
    ensures Computes([Alu(op, rd, rs, op2)], op, rd, rs, OperandValue(op2, []))
  {
    ImmFits(op2);
    forall s: State | IsState(s)
      ensures Run(s, [Alu(op, rd, rs, op2)]) == Write(s, rd, Result(op, s.r[rs], OperandValue(op2, [])))
    {
      OneRun(s, Alu(op, rd, rs, op2));
    }
  }

  lemma ComputesMore(insts: seq<Inst>, op: AluOp, rd: nat, rs: nat, v: nat, op2: Operand2)
    requires Chains(op) && Computes(insts, op, rd, rs, v) && IsImm(op2)
    ensures Computes(insts + [Alu(op, rd, rd, op2)], op, rd, rs, Combine(op, v, OperandValue(op2, [])))
  {
    ImmFits(op2);
    var w := OperandValue(op2, []);
    ResultChains(op, 0, v, w);
    forall s: State | IsState(s)
      ensures Run(s, insts + [Alu(op, rd, rd, op2)]) == Write(s, rd, Result(op, s.r[rs], Combine(op, v, w)))
    {
      RunSnoc(s, insts, Alu(op, rd, rd, op2));
      ResultChains(op, s.r[rs], v, w);
      WriteWrite(s, rd, Result(op, s.r[rs], v), Result(op, s.r[rs], Combine(op, v, w)));
    }
  }

  lemma LoadsOne(i: Inst, rd: nat, v: nat)
    requires rd < 15 && v < TWO32 && forall s: State :: Exec(s, i) == Write(s, rd, v)
    ensures Loads([i], rd, v)
  {
    forall s: State | IsState(s)
      ensures Run(s, [i]) == Write(s, rd, v)
    {
      OneRun(s, i);
    }
  }

  lemma LoadsMore(insts: seq<Inst>, rd: nat, v: nat, op2: Operand2)
    requires Loads(insts, rd, v) && IsImm(op2)
    ensures Loads(insts + [Alu(ORR, rd, rd, op2)], rd, Or(v, OperandValue(op2, [])))
  {
    ImmFits(op2);
    var w := OperandValue(op2, []);
    Pow32();
    OrFits(v, w, 32);
    forall s: State | IsState(s)
      ensures Run(s, insts + [Alu(ORR, rd, rd, op2)]) == Write(s, rd, Or(v, w))
    {
      RunSnoc(s, insts, Alu(ORR, rd, rd, op2));
      WriteWrite(s, rd, v, Or(v, w));
    }
  }

  // ------------------------------------------------------------ the emitter

  class ARMXEmitter {
    const armv7: bool
    var code: seq<Inst>

    constructor (armv7: bool)
      ensures this.armv7 == armv7 && code == []
    {
      this.armv7 := armv7;
      code := [];
    }

    method Emit(i: Inst)
      modifies this
      ensures code == old(code) + [i]
    {
      code := code + [i];
    }

    // One instruction per operand, the first reading rs and the others rd.
    method EmitChain(op: AluOp, rd: nat, rs: nat, ops: seq<Operand2>) returns (ghost insts: seq<Inst>)
      requires op == ORR || op == BIC
      requires rd < 15 && rs < 15 && ops != [] && AllImm(ops)
      modifies this
      ensures code == old(code) + insts && Computes(insts, op, rd, rs, OrAll(ops))
    {
      Emit(Alu(op, rd, rs, ops[0]));
      insts := [Alu(op, rd, rs, ops[0])];
      ComputesOne(op, rd, rs, ops[0]);
      OneOperand(ops);
      var k := 1;
      while k < |ops|
        invariant 1 <= k <= |ops| && code == old(code) + insts && Computes(insts, op, rd, rs, OrAll(ops[..k])) == true
      {
        ComputesMore(insts, op, rd, rs, OrAll(ops[..k]), ops[k]);
        MoreOperands(ops, k);
        Emit(Alu(op, rd, rd, ops[k]));
        insts := insts + [Alu(op, rd, rd, ops[k])];
        k := k + 1;
      }
      assert ops[..k] == ops;
    }

    method EmitLoads(rd: nat, ops: seq<Operand2>) returns (ghost insts: seq<Inst>)
      requires rd < 15 && ops != [] && AllImm(ops)
      modifies this
      ensures code == old(code) + insts && Loads(insts, rd, OrAll(ops))
    {
      Emit(Mov(rd, ops[0]));
      insts := [Mov(rd, ops[0])];
      ImmFits(ops[0]);
      LoadsOne(Mov(rd, ops[0]), rd, OperandValue(ops[0], []));
      OneOperand(ops);
      var k := 1;
      while k < |ops|
        invariant 1 <= k <= |ops| && code == old(code) + insts && Loads(insts, rd, OrAll(ops[..k])) == true
      {
        LoadsMore(insts, rd, OrAll(ops[..k]), ops[k]);
        MoreOperands(ops, k);
        Emit(Alu(ORR, rd, rd, ops[k]));
        insts := insts + [Alu(ORR, rd, rd, ops[k])];
        k := k + 1;
      }
      assert ops[..k] == ops;
    }

    // Two instructions at most; for 0 none at all, although it says that it has set the value.
    method TrySetValue_TwoOp(reg: nat, val: nat) returns (ok: bool, ghost insts: seq<Inst>)
      requires reg < 15 && val < TWO32
      modifies this
      ensures code == old(code) + insts && (ok && val != 0 ==> Loads(insts, reg, val))
      ensures (val == 0 ==> ok && insts == []) && (!ok ==> insts == [])
    {
      insts := [];
      var ops := ShiftedWindows(val);
      ok := |ops| <= 2;
      if ok && ops != [] { insts := EmitLoads(reg, ops); }
    }

    method MOVI2R(reg: nat, val: nat, optimize: bool) returns (ghost insts: seq<Inst>)
      requires reg < 15 && val < TWO32
      modifies this
      ensures code == old(code) + insts && Loads(insts, reg, val)
    {
      if armv7 && !optimize {
        insts := EmitHalves(reg, val, true);
        return;
      }
      var ok, op2, inverse := TryMakeOperand2_AllowInverse(val);
      if ok {
        insts := EmitMove(reg, val, op2, inverse);
      } else if armv7 {
        insts := EmitHalves(reg, val, val / 0x1_0000 != 0);
      } else {
        ZeroEncodable();
        ok, insts := TrySetValue_TwoOp(reg, val);
        if !ok {
          var ops := Windows(val);
          insts := EmitLoads(reg, ops);
        }
      }
    }

    method EmitMove(reg: nat, val: nat, op2: Operand2, inverse: bool) returns (ghost insts: seq<Inst>)
      requires reg < 15 && val < TWO32 && IsImm(op2)
          && Expand(op2.imm8, op2.rotation) == if inverse then Complement(val) else val
      modifies this
      ensures code == old(code) + insts && Loads(insts, reg, val)
    {
      var i := if inverse then Mvn(reg, op2) else Mov(reg, op2);
      Emit(i);
      insts := [i];
      ImmFits(op2);
      LoadsOne(i, reg, val);
    }

    // MOVW, and MOVT for the upper half.
    method EmitHalves(reg: nat, val: nat, top: bool) returns (ghost insts: seq<Inst>)
      requires reg < 15 && val < TWO32 && (!top ==> val / 0x1_0000 == 0)
      modifies this
      ensures code == old(code) + insts && Loads(insts, reg, val)
    {
      Emit(Movw(reg, val % 0x1_0000));
      insts := [Movw(reg, val % 0x1_0000)];
      LoadsOne(insts[0], reg, val % 0x1_0000);
      if top {
        LoadsTop(insts, reg, val);
        Emit(Movt(reg, val / 0x1_0000));
        insts := insts + [Movt(reg, val / 0x1_0000)];
      }
    }

    // ---------------------------------------------------------- rd := rs op val

    method MoveRegister(rd: nat, rs: nat, op: AluOp) returns (ghost insts: seq<Inst>)
      requires rd < 15 && rs < 15 && (op == ADD || op == ORR || op == EOR)
      modifies this
      ensures code == old(code) + insts && Computes(insts, op, rd, rs, 0)
    {
      insts := [];
      if rd != rs {
        Emit(Mov(rd, Operand2.Reg(rs)));
        insts := [Mov(rd, Operand2.Reg(rs))];
      }
      MoveComputes(insts, op, rd, rs);
    }

    method EmitOne(op: AluOp, rd: nat, rs: nat, op2: Operand2) returns (ghost insts: seq<Inst>)
      requires rd < 15 && rs < 15 && IsImm(op2)
      modifies this
      ensures code == old(code) + insts && Computes(insts, op, rd, rs, OperandValue(op2, []))
    {
      Emit(Alu(op, rd, rs, op2));
      insts := [Alu(op, rd, rs, op2)];
      ComputesOne(op, rd, rs, op2);
    }

    // The high byte, then the low byte, of a 16-bit constant.
    method EmitTwoBytes(op: AluOp, rd: nat, rs: nat, val: nat) returns (ghost insts: seq<Inst>)
      requires rd < 15 && rs < 15 && val < 0x1_0000 && (op == ADD || op == SUB)
      modifies this
      ensures code == old(code) + insts && Computes(insts, op, rd, rs, val)
    {
      var high, low := Imm(val / 0x100, 12), Imm(val % 0x100, 0);
      insts := EmitOne(op, rd, rs, high);
      ComputesMore(insts, op, rd, rs, OperandValue(high, []), low);
      TwoBytes(op, val);
      Emit(Alu(op, rd, rd, low));
      insts := insts + [Alu(op, rd, rd, low)];
    }

    method TryADDI2R(rd: nat, rs: nat, val: nat) returns (ok: bool, ghost insts: seq<Inst>)
      requires rd < 15 && rs < 15 && val < TWO32
      modifies this
      ensures code == old(code) + insts && (ok ==> Computes(insts, ADD, rd, rs, val)) && (!ok ==> insts == [])
    {
      insts := [];
      if val == 0 {
        insts := MoveRegister(rd, rs, ADD);
        return true, insts;
      }
      var op2, negated;
      ok, op2, negated := TryMakeOperand2_AllowNegation(val);
      if ok {
        insts := EmitOne(if negated then SUB else ADD, rd, rs, op2);
        if negated { SubIsAdd(insts, rd, rs, val); }
      } else if val / 0x1_0000 == 0 {
        insts := EmitTwoBytes(ADD, rd, rs, val);
        ok := true;
      } else if Negate(val) / 0x1_0000 == 0 {
        insts := EmitTwoBytes(SUB, rd, rs, Negate(val));
        SubIsAdd(insts, rd, rs, val);
        ok := true;
      }
    }

    // MOVI2R into the scratch register, then the operation on the registers.
    method ViaScratch(op: AluOp, rd: nat, rs: nat, val: nat, scratch: nat) returns (ghost insts: seq<Inst>)
      requires rd < 15 && rs < 15 && scratch < 15 && scratch != rs && val < TWO32
      modifies this
      ensures code == old(code) + insts && ComputesVia(insts, op, rd, rs, val, scratch)
    {
      insts := MOVI2R(scratch, val, true);
      ViaComputes(insts, op, rd, rs, val, scratch);
      Emit(Alu(op, rd, rs, Operand2.Reg(scratch)));
      insts := insts + [Alu(op, rd, rs, Operand2.Reg(scratch))];
    }

    method ADDI2R(rd: nat, rs: nat, val: nat, scratch: nat) returns (ghost insts: seq<Inst>)
      requires rd < 15 && rs < 15 && scratch < 15 && scratch != rs && val < TWO32
      modifies this
      ensures code == old(code) + insts && Does(insts, ADD, rd, rs, val, scratch)
    {
      var ok;
      ok, insts := TryADDI2R(rd, rs, val);
      if !ok { insts := ViaScratch(ADD, rd, rs, val, scratch); }
    }

    // A negative is added.
    method TrySUBI2R(rd: nat, rs: nat, val: nat) returns (ok: bool, ghost insts: seq<Inst>)
      requires rd < 15 && rs < 15 && val < TWO32
      modifies this
      ensures code == old(code) + insts && (ok ==> Computes(insts, SUB, rd, rs, val)) && (!ok ==> insts == [])
    {
      ok, insts := TryADDI2R(rd, rs, Negate(val));
      if ok { AddIsSub(insts, rd, rs, val); }
    }

    method SUBI2R(rd: nat, rs: nat, val: nat, scratch: nat) returns (ghost insts: seq<Inst>)
      requires rd < 15 && rs < 15 && scratch < 15 && scratch != rs && val < TWO32
      modifies this
      ensures code == old(code) + insts && Does(insts, SUB, rd, rs, val, scratch)
    {
      var ok;
      ok, insts := TrySUBI2R(rd, rs, val);
      if !ok { insts := ViaScratch(SUB, rd, rs, val, scratch); }
    }

    // The number of low ones if that is all of val; not positive otherwise.
    method LowOnes(val: nat) returns (ones: int)
      requires val < TWO32
      ensures ones > 0 ==> ones < 32 && val == Pow2(ones) - 1
    {
      ones := -1;
      var i := 0;
      while i < 32
        invariant i <= 32 && -2 <= ones < i
        invariant ones == -1 ==> forall j: nat :: j < i ==> Bit(val, j)
        invariant ones >= 0 ==> forall j: nat :: j < i ==> (Bit(val, j) <==> j < ones)
      {
        if Shr(val, i) % 2 == 0 {
          if ones == -1 { ones := i; }
        } else if ones != -1 {
          ones := -2;
        }
        ShrFacts(val, i);
        i := i + 1;
      }
      if ones > 0 { OnesIs(val, ones); }
    }

    method TryANDI2R(rd: nat, rs: nat, val: nat) returns (ok: bool, ghost insts: seq<Inst>)
      requires rd < 15 && rs < 15 && val < TWO32
      modifies this
      ensures code == old(code) + insts && (ok ==> Computes(insts, AND, rd, rs, val)) && (!ok ==> insts == [])
    {
      insts := [];
      if val == 0 {
        Emit(Mov(rd, Imm(0, 0)));
        insts := [Mov(rd, Imm(0, 0))];
        AndZero(rd, rs);
        return true, insts;
      }
      var op2, inverse;
      ok, op2, inverse := TryMakeOperand2_AllowInverse(val);
      if ok {
        insts := EmitOne(if inverse then BIC else AND, rd, rs, op2);
        if inverse { BicIsAnd(insts, rd, rs, val); }
        return;
      }
      if armv7 {
        var width := LowOnes(val);
        if width > 0 {
          Emit(Ubfx(rd, rs, 0, width));
          insts := [Ubfx(rd, rs, 0, width)];
          UbfxIsAnd(rd, rs, val, width);
          return true, insts;
        }
      }
      var ops := Windows(Complement(val));
      if armv7 && |ops| > 3 { return false, []; }
      AllOnesEncodable(val);
      insts := EmitChain(BIC, rd, rs, ops);
      BicIsAnd(insts, rd, rs, val);
      ok := true;
    }

    method ANDI2R(rd: nat, rs: nat, val: nat, scratch: nat) returns (ghost insts: seq<Inst>)
      requires rd < 15 && rs < 15 && scratch < 15 && scratch != rs && val < TWO32
      modifies this
      ensures code == old(code) + insts && Does(insts, AND, rd, rs, val, scratch)
    {
      var ok;
      ok, insts := TryANDI2R(rd, rs, val);
      if !ok { insts := ViaScratch(AND, rd, rs, val, scratch); }
    }

    method TryORI2R(rd: nat, rs: nat, val: nat) returns (ok: bool, ghost insts: seq<Inst>)
      requires rd < 15 && rs < 15 && val < TWO32
      modifies this
      ensures code == old(code) + insts && (ok ==> Computes(insts, ORR, rd, rs, val)) && (!ok ==> insts == [])
    {
      insts := [];
      if val == 0 {
        insts := MoveRegister(rd, rs, ORR);
        return true, insts;
      }
      var op2;
      ok, op2 := TryMakeOperand2(val);
      if ok {
        insts := EmitOne(ORR, rd, rs, op2);
        return;
      }
      var ops := Windows(val);
      var short, _, _ := TryMakeOperand2_AllowInverse(val);
      if short && |ops| >= 3 { return false, []; }
      if armv7 && |ops| > 3 { return false, []; }
      insts := EmitChain(ORR, rd, rs, ops);
      ok := true;
    }

    method ORI2R(rd: nat, rs: nat, val: nat, scratch: nat) returns (ghost insts: seq<Inst>)
      requires rd < 15 && rs < 15 && scratch < 15 && scratch != rs && val < TWO32
      modifies this
      ensures code == old(code) + insts && Does(insts, ORR, rd, rs, val, scratch)
    {
      var ok;
      ok, insts := TryORI2R(rd, rs, val);
      if !ok { insts := ViaScratch(ORR, rd, rs, val, scratch); }
    }

    method TryEORI2R(rd: nat, rs: nat, val: nat) returns (ok: bool, ghost insts: seq<Inst>)
      requires rd < 15 && rs < 15 && val < TWO32
      modifies this
      ensures code == old(code) + insts && (ok ==> Computes(insts, EOR, rd, rs, val)) && (!ok ==> insts == [])
    {
      insts := [];
      if val == 0 {
        insts := MoveRegister(rd, rs, EOR);
        return true, insts;
      }
      var op2;
      ok, op2 := TryMakeOperand2(val);
      if ok { insts := EmitOne(EOR, rd, rs, op2); }
    }

    method EORI2R(rd: nat, rs: nat, val: nat, scratch: nat) returns (ghost insts: seq<Inst>)
      requires rd < 15 && rs < 15 && scratch < 15 && scratch != rs && val < TWO32
      modifies this
      ensures code == old(code) + insts && Does(insts, EOR, rd, rs, val, scratch)
    {
      var ok;
      ok, insts := TryEORI2R(rd, rs, val);
      if !ok { insts := ViaScratch(EOR, rd, rs, val, scratch); }
    }

    // ---------------------------------------------------------- comparison

    method TryCMPI2R(rs: nat, val: nat) returns (ok: bool, ghost insts: seq<Inst>)
      requires rs < 15 && val < TWO32
      modifies this
      ensures code == old(code) + insts && (!ok ==> insts == [])
      ensures ok ==> forall s: State :: IsState(s) ==> Run(s, insts) == s.(flags := CmpFlags(s.r[rs], val))
    {
      insts := [];
      var op2, negated;
      ok, op2, negated := TryMakeOperand2_AllowNegation(val);
      if ok {
        var i := if negated then Cmn(rs, op2) else Cmp(rs, op2);
        Emit(i);
        insts := [i];
        Compares(rs, op2, negated, val);
      }
    }

    // The flags of CMP with val.
    method CMPI2R(rs: nat, val: nat, scratch: nat) returns (ghost insts: seq<Inst>)
      requires rs < 15 && scratch < 15 && scratch != rs && val < TWO32
      modifies this
      ensures code == old(code) + insts
      ensures forall s: State :: IsState(s) ==>
        var t := Run(s, insts); t.flags == CmpFlags(s.r[rs], val) && (t.r == s.r || t.r == s.r[scratch := val])
    {
      var ok;
      ok, insts := TryCMPI2R(rs, val);
      if !ok {
        insts := MOVI2R(scratch, val, true);
        ComparesVia(insts, rs, val, scratch);
        Emit(Cmp(rs, Operand2.Reg(scratch)));
        insts := insts + [Cmp(rs, Operand2.Reg(scratch))];
      }
    }
  }

  // rs op val in rd; the scratch register may have been used.
  ghost predicate Does(insts: seq<Inst>, op: AluOp, rd: nat, rs: nat, val: nat, scratch: nat) {
    Computes(insts, op, rd, rs, val) || ComputesVia(insts, op, rd, rs, val, scratch)
  }

  // ------------------------------------------------------------ why the forms are right

  lemma MoveComputes(insts: seq<Inst>, op: AluOp, rd: nat, rs: nat)
    requires rd < 15 && rs < 15 && (op == ADD || op == ORR || op == EOR)
    requires insts == if rd != rs then [Mov(rd, Operand2.Reg(rs))] else []
    ensures Computes(insts, op, rd, rs, 0)
  {
    forall s: State | IsState(s)
      ensures Run(s, insts) == Write(s, rd, Result(op, s.r[rs], 0))
    {
      assert Result(op, s.r[rs], 0) == s.r[rs];
      if rd != rs { OneRun(s, Mov(rd, Operand2.Reg(rs))); } else { assert s.r[rd := s.r[rd]] == s.r; }
    }
  }

  lemma HighByte(b: nat)
    requires b < 0x100
    ensures OperandValue(Imm(b, 12), []) == b * 0x100
  {
    var v := RotR(b, 24);
    Fits(b, 24);
    WordPowers();
    forall i: nat | i < 32
      ensures Bit(v, i) <==> Bit(b * 0x100, i)
    {
      RotRBit(b, 24, i);
      BitTimes(b, 8, i);
      if i + 24 < 32 { BitBelow(b, 8, i + 24); }
    }
    SameWord(v, b * 0x100);
  }

  lemma TwoBytes(op: AluOp, val: nat)
    requires val < 0x1_0000 && (op == ADD || op == SUB)
    ensures Combine(op, OperandValue(Imm(val / 0x100, 12), []), OperandValue(Imm(val % 0x100, 0), [])) == val
  {
    HighByte(val / 0x100);
    LowByte(val % 0x100);
    BytesAdd(op, val / 0x100 * 0x100, val % 0x100, val);
  }

  lemma LowByte(b: nat)
    ensures OperandValue(Imm(b, 0), []) == b
  {}

  lemma BytesAdd(op: AluOp, high: nat, low: nat, val: nat)
    requires (op == ADD || op == SUB) && high + low == val < 0x1_0000
    ensures Combine(op, high, low) == val
  {}

  // Adding a negative subtracts, and the other way round.
  lemma SubIsAdd(insts: seq<Inst>, rd: nat, rs: nat, val: nat)
    requires val < TWO32 && Computes(insts, SUB, rd, rs, Negate(val))
    ensures Computes(insts, ADD, rd, rs, val)
  {
    forall s: State | IsState(s)
      ensures Run(s, insts) == Write(s, rd, Result(ADD, s.r[rs], val))
    {
      NegatedResult(s.r[rs], val);
    }
  }

  lemma AddIsSub(insts: seq<Inst>, rd: nat, rs: nat, val: nat)
    requires val < TWO32 && Computes(insts, ADD, rd, rs, Negate(val))
    ensures Computes(insts, SUB, rd, rs, val)
  {
    forall s: State | IsState(s)
      ensures Run(s, insts) == Write(s, rd, Result(SUB, s.r[rs], val))
    {
      NegatedResult(s.r[rs], val);
    }
  }

  lemma NegatedResult(x: nat, val: nat)
    requires x < TWO32 && val < TWO32
    ensures Result(SUB, x, Negate(val)) == Result(ADD, x, val) && Result(ADD, x, Negate(val)) == Result(SUB, x, val)
  {
    NegateWraps(x, val);
  }

  lemma NegateWraps(x: nat, val: nat)
    requires x < TWO32 && val < TWO32
    ensures (x - Negate(val)) % TWO32 == (x + val) % TWO32 && (x + Negate(val)) % TWO32 == (x - val) % TWO32
  {}

  lemma BicIsAnd(insts: seq<Inst>, rd: nat, rs: nat, val: nat)
    requires val < TWO32 && Computes(insts, BIC, rd, rs, Complement(val))
    ensures Computes(insts, AND, rd, rs, val)
  {
    assert Not32(Complement(val)) == val;
    forall s: State | IsState(s)
      ensures Result(BIC, s.r[rs], Complement(val)) == Result(AND, s.r[rs], val)
    {}
  }

  lemma AndZero(rd: nat, rs: nat)
    requires rd < 15 && rs < 15
    ensures Computes([Mov(rd, Imm(0, 0))], AND, rd, rs, 0)
  {
    forall s: State | IsState(s)
      ensures Run(s, [Mov(rd, Imm(0, 0))]) == Write(s, rd, Result(AND, s.r[rs], 0))
    {
      OneRun(s, Mov(rd, Imm(0, 0)));
    }
  }

  lemma OnesIs(val: nat, n: nat)
    requires val < TWO32 && 0 < n < 32 && forall j: nat :: j < 32 ==> (Bit(val, j) <==> j < n)
    ensures val == Pow2(n) - 1
  {
    Pow32();
    Pow2Grows(n, 32);
    var ones := Pow2(n) - 1;
    forall j: nat | j < 32
      ensures Bit(ones, j) <==> j < n
    {
      BitRun(0, n, j);
    }
    SameWord(val, ones);
  }

  lemma UbfxIsAnd(rd: nat, rs: nat, val: nat, width: nat)
    requires rd < 15 && rs < 15 && val == Pow2(width) - 1 && val < TWO32
    ensures Computes([Ubfx(rd, rs, 0, width)], AND, rd, rs, val)
  {
    forall s: State | IsState(s)
      ensures Run(s, [Ubfx(rd, rs, 0, width)]) == Write(s, rd, Result(AND, s.r[rs], val))
    {
      OneRun(s, Ubfx(rd, rs, 0, width));
      AndLow(s.r[rs], width);
    }
  }

  // A constant that is not encodable either way is not all ones.
  lemma AllOnesEncodable(val: nat)
    requires val < TWO32 && !Encodable(Complement(val))
    ensures Complement(val) != 0
  {
    ZeroEncodable();
  }

  lemma ViaComputes(insts: seq<Inst>, op: AluOp, rd: nat, rs: nat, val: nat, scratch: nat)
    requires rd < 15 && rs < 15 && scratch != rs && Loads(insts, scratch, val)
    ensures ComputesVia(insts + [Alu(op, rd, rs, Operand2.Reg(scratch))], op, rd, rs, val, scratch)
  {
    forall s: State | IsState(s)
      ensures Run(s, insts + [Alu(op, rd, rs, Operand2.Reg(scratch))])
          == Write(Write(s, scratch, val), rd, Result(op, s.r[rs], val))
    {
      RunSnoc(s, insts, Alu(op, rd, rs, Operand2.Reg(scratch)));
    }
  }

  // 0 and the most negative number are encodable, so CMN is never used for them.
  lemma Compares(rs: nat, op2: Operand2, negated: bool, val: nat)
    requires rs < 15 && val < TWO32 && IsImm(op2)
        && Expand(op2.imm8, op2.rotation) == (if negated then Negate(val) else val)
    requires negated <==> !Encodable(val)
    ensures forall s: State :: IsState(s) ==>
      Run(s, [if negated then Cmn(rs, op2) else Cmp(rs, op2)]) == s.(flags := CmpFlags(s.r[rs], val))
  {
    ZeroEncodable();
    TopBitEncodable();
    forall s: State | IsState(s)
      ensures Run(s, [if negated then Cmn(rs, op2) else Cmp(rs, op2)]) == s.(flags := CmpFlags(s.r[rs], val))
    {
      OneRun(s, if negated then Cmn(rs, op2) else Cmp(rs, op2));
      CmnIsCmp(s.r[rs], val);
    }
  }

  lemma TopBitEncodable()
    ensures Encodable(0x8000_0000)
  {
    var v := RotR(2, 2);
    Fits(2, 2);
    WordPowers();
    Pow2Sum(31, 1);
    forall i: nat | i < 32
      ensures Bit(v, i) <==> Bit(0x8000_0000, i)
    {
      RotRBit(2, 2, i);
      BitPow2(1, if i + 2 < 32 then i + 2 else i + 2 - 32);
      BitPow2(31, i);
    }
    SameWord(v, 0x8000_0000);
    assert Expand(2, 1) == 0x8000_0000;
  }

  lemma ComparesVia(insts: seq<Inst>, rs: nat, val: nat, scratch: nat)
    requires rs < 15 && scratch != rs && Loads(insts, scratch, val)
    ensures forall s: State :: IsState(s) ==>
      Run(s, insts + [Cmp(rs, Operand2.Reg(scratch))]) == Write(s, scratch, val).(flags := CmpFlags(s.r[rs], val))
  {
    forall s: State | IsState(s)
      ensures Run(s, insts + [Cmp(rs, Operand2.Reg(scratch))])
          == Write(s, scratch, val).(flags := CmpFlags(s.r[rs], val))
    {
      RunSnoc(s, insts, Cmp(rs, Operand2.Reg(scratch)));
    }
  }

  lemma LoadsTop(insts: seq<Inst>, rd: nat, val: nat)
    requires val < TWO32 && Loads(insts, rd, val % 0x1_0000)
    ensures Loads(insts + [Movt(rd, val / 0x1_0000)], rd, val)
  {
    var lo, hi := val % 0x1_0000, val / 0x1_0000;
    forall s: State | IsState(s)
      ensures Run(s, insts + [Movt(rd, hi)]) == Write(s, rd, val)
    {
      TopLoaded(s, insts, rd, lo, hi, val);
    }
  }

  lemma TopLoaded(s: State, insts: seq<Inst>, rd: nat, lo: nat, hi: nat, val: nat)
    requires IsState(s) && Run(s, insts) == Write(s, rd, lo) && lo < 0x1_0000 && val == hi * 0x1_0000 + lo
    ensures Run(s, insts + [Movt(rd, hi)]) == Write(s, rd, val)
  {
    RunSnoc(s, insts, Movt(rd, hi));
    WriteWrite(s, rd, lo, val);
  }

  lemma ZeroEncodable()
    ensures Encodable(0)
  {
    assert Expand(0, 0) == 0;
  }

  lemma OneOperand(ops: seq<Operand2>)
    requires ops != []
    ensures OrAll(ops[..1]) == OperandValue(ops[0], [])
  {
    assert ops[..1][..0] == [];
  }

  lemma MoreOperands(ops: seq<Operand2>, k: nat)
    requires 0 < k < |ops|
    ensures OrAll(ops[..k + 1]) == Or(OrAll(ops[..k]), OperandValue(ops[k], []))
  {
    assert ops[..k + 1][..k] == ops[..k];
  }
}
