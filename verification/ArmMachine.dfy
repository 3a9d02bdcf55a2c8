/** The ARM instructions that the immediate helpers of Common/ArmEmitter.cpp emit, executed as the
    ARM Architecture Reference Manual, ARMv7-A and ARMv7-R edition, section A8.8, defines them. */
module ArmMachine {
  import opened Words
  import opened ArmImmediates

  datatype Flags = Flags(n: bool, z: bool, c: bool, v: bool)

  // R0 to R14 and the condition flags.
  datatype State = State(r: seq<nat>, flags: Flags)

  ghost predicate IsState(s: State) { |s.r| == 15 && forall i :: 0 <= i < 15 ==> s.r[i] < TWO32 }

  datatype AluOp = AND | EOR | SUB | ADD | ORR | BIC

  datatype Inst =
    | Mov(rd: nat, op2: Operand2) | Mvn(rd: nat, op2: Operand2)
    | Movw(rd: nat, imm16: nat) | Movt(rd: nat, imm16: nat)
    | Ubfx(rd: nat, rn: nat, lsb: nat, width: nat)
    | Alu(op: AluOp, rd: nat, rn: nat, op2: Operand2)
    | Cmp(rn: nat, op2: Operand2) | Cmn(rn: nat, op2: Operand2)

  function Reg(r: seq<nat>, i: nat): nat { if i < |r| then r[i] else 0 }

  function OperandValue(op2: Operand2, r: seq<nat>): nat {
    if op2.Imm? then (if op2.rotation < 16 then Expand(op2.imm8, op2.rotation) else 0) else Reg(r, op2.reg)
  }

  function Not32(y: nat): nat { if y < TWO32 then Complement(y) else 0 }

  function Result(op: AluOp, x: nat, y: nat): nat {
    match op
    case AND => And(x, y)
    case EOR => Xor(x, y)
    case SUB => (x - y) % TWO32
    case ADD => (x + y) % TWO32
    case ORR => Or(x, y)
    case BIC => And(x, Not32(y))
  }

  // AddWithCarry, as far as the flags go.
  function AddFlags(x: nat, y: nat, carry: nat): Flags {
    var u, s := x + y + carry, ToS32(x) + ToS32(y) + carry;
    Flags(u % TWO32 >= 0x8000_0000, u % TWO32 == 0, u >= TWO32, ToS32(u % TWO32) != s)
  }

  function CmpFlags(x: nat, y: nat): Flags { AddFlags(x, Not32(y), 1) }

  function CmnFlags(x: nat, y: nat): Flags { AddFlags(x, y, 0) }

  function Write(s: State, rd: nat, v: nat): State { if rd < |s.r| then s.(r := s.r[rd := v]) else s }

  function Exec(s: State, i: Inst): State {
    match i
    case Mov(rd, op2) => Write(s, rd, OperandValue(op2, s.r))
    case Mvn(rd, op2) => Write(s, rd, Not32(OperandValue(op2, s.r)))
    case Movw(rd, imm16) => Write(s, rd, imm16)
    case Movt(rd, imm16) => Write(s, rd, Reg(s.r, rd) % 0x1_0000 + imm16 * 0x1_0000)
    case Ubfx(rd, rn, lsb, width) => Write(s, rd, Shr(Reg(s.r, rn), lsb) % Pow2(width))
    case Alu(op, rd, rn, op2) => Write(s, rd, Result(op, Reg(s.r, rn), OperandValue(op2, s.r)))
    case Cmp(rn, op2) => s.(flags := CmpFlags(Reg(s.r, rn), OperandValue(op2, s.r)))
    case Cmn(rn, op2) => s.(flags := CmnFlags(Reg(s.r, rn), OperandValue(op2, s.r)))
  }

  function Run(s: State, insts: seq<Inst>): State {
    if insts == [] then s else Exec(Run(s, insts[..|insts| - 1]), insts[|insts| - 1])
  }

  lemma RunSnoc(s: State, insts: seq<Inst>, i: Inst)
    ensures Run(s, insts + [i]) == Exec(Run(s, insts), i)
  {
    assert (insts + [i])[..|insts|] == insts;
  }

  // Comparing with val and comparing the negative of val the other way set the same flags,
  // whatever the register holds, exactly when val is neither 0 nor the most negative number.
  lemma CmnIsCmp(x: nat, val: nat)
    requires x < TWO32 && val < TWO32
    ensures CmnFlags(x, Negate(val)) == CmpFlags(x, val) <==> val != 0 && val != 0x8000_0000
  {
    var not := Not32(val);
    assert not == TWO32 - 1 - val;
    NegateIs(val);
    if val == 0 {
      assert x + not + 1 == x + TWO32 && x + Negate(val) + 0 == x;
    } else {
      assert x + Negate(val) + 0 == x + not + 1;
    }
  }

  // The two exceptions: the carry differs at 0, the overflow at 0x80000000.
  lemma CmnDiffers()
    ensures CmpFlags(0, 0).c && !CmnFlags(0, Negate(0)).c
    ensures CmpFlags(0, 0x8000_0000).v && !CmnFlags(0, Negate(0x8000_0000)).v
  {}

  // -val is ~val + 1, and so are their signed values unless that overflows.
  lemma NegateIs(val: nat)
    requires val < TWO32
    ensures val == 0 ==> Negate(val) == 0
    ensures val != 0 ==> Negate(val) == TWO32 - val
    ensures val != 0 ==> (ToS32(Negate(val)) == ToS32(TWO32 - 1 - val) + 1 <==> val != 0x8000_0000)
  {}
}
