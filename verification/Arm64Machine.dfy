/** The instructions that MOVI2R of Common/Arm64Emitter.cpp builds constants from, decoded and
    executed as the Arm Architecture Reference Manual for A-profile (chapters C4 and C6) defines
    them. */
module Arm64Machine {
  import opened Words

  // The registers X0 to X30, the program counter, and whether every instruction so far was one
  // of those below.
  datatype Core = Core(x: seq<nat>, pc: nat, defined: bool)

  ghost predicate IsCore(c: Core) {
    |c.x| == 31 && (forall i :: 0 <= i < 31 ==> c.x[i] < WORD) && c.defined && c.pc < WORD
  }

  datatype Inst =
    | MoveWide(sf: bool, opc: nat, hw: nat, imm16: nat, rd: nat)
    | PcRelative(page: bool, imm21: int, rd: nat)
    | AddImmediate(sf: bool, shift: nat, imm12: nat, rn: nat, rd: nat)
    | OrNot(sf: bool, shift: nat, rm: nat, imm6: nat, rn: nat, rd: nat)
    | Other

  function SignExtend21(x: nat): int { if x < 0x10_0000 then x else x - 0x20_0000 }

  function Decode(w: nat): Inst {
    var sf, group := w / 0x8000_0000 % 2 == 1, w / 0x100_0000 % 0x20;
    var rd, rn := w % 0x20, w / 0x20 % 0x20;
    if group == 0x12 && w / 0x80_0000 % 2 == 1 then
      MoveWide(sf, w / 0x2000_0000 % 4, w / 0x20_0000 % 4, w / 0x20 % 0x1_0000, rd)
    else if group == 0x10 then
      PcRelative(sf, SignExtend21(w / 0x20 % 0x8_0000 * 4 + w / 0x2000_0000 % 4), rd)
    else if group == 0x11 && w / 0x2000_0000 % 4 == 0 then
      AddImmediate(sf, w / 0x40_0000 % 4, w / 0x400 % 0x1000, rn, rd)
    else if group == 0x0A && w / 0x2000_0000 % 4 == 1 && w / 0x20_0000 % 2 == 1 then
      OrNot(sf, w / 0x40_0000 % 4, w / 0x1_0000 % 0x20, w / 0x400 % 0x40, rn, rd)
    else Other
  }

  // A register of the operand size.
  function Sized(sf: bool, v: int): nat { if sf then v % WORD else v % 0x1_0000_0000 }

  function Ones(sf: bool): nat { if sf then WORD - 1 else 0xFFFF_FFFF }

  // imm16 moved up to the hw-th 16 bits.
  function AtHw(imm16: nat, hw: nat): nat {
    if hw == 0 then imm16 else if hw == 1 then imm16 * 0x1_0000
    else if hw == 2 then imm16 * 0x1_0000_0000 else imm16 * 0x1_0000_0000_0000
  }

  // The hw-th 16 bits of v.
  function HwOf(v: nat, hw: nat): nat {
    if hw == 0 then v % 0x1_0000 else if hw == 1 then v / 0x1_0000 % 0x1_0000
    else if hw == 2 then v / 0x1_0000_0000 % 0x1_0000 else v / 0x1_0000_0000_0000 % 0x1_0000
  }

  // v with its hw-th 16 bits replaced.
  function Keep(v: nat, hw: nat, imm16: nat): int { v - AtHw(HwOf(v, hw), hw) + AtHw(imm16, hw) }

  // What the instruction writes to rd; None where it is undefined or not modelled.
  datatype Effect = None | Writes(rd: nat, value: nat)

  function EffectOf(i: Inst, x: seq<nat>, pc: nat): Effect {
    match i
    case MoveWide(sf, opc, hw, imm16, rd) =>
      if rd >= |x| || (!sf && hw >= 2) then None
      else if opc == 2 then Writes(rd, Sized(sf, AtHw(imm16, hw)))
      else if opc == 0 then Writes(rd, Sized(sf, Ones(sf) - AtHw(imm16, hw)))
      else if opc == 3 then Writes(rd, Sized(sf, Keep(x[rd], hw, imm16)))
      else None
    case PcRelative(page, imm21, rd) =>
      if rd >= |x| then None
      else if page then Writes(rd, (pc - pc % 0x1000 + imm21 * 0x1000) % WORD)
      else Writes(rd, (pc + imm21) % WORD)
    case AddImmediate(sf, shift, imm12, rn, rd) =>
      if rd >= |x| || rn >= |x| || shift >= 2 then None
      else Writes(rd, Sized(sf, x[rn] + (if shift == 1 then imm12 * 0x1000 else imm12)))
    case OrNot(sf, shift, rm, imm6, rn, rd) =>
      // ORN with the zero register twice, the only form emitted here
      if rd >= |x| || rm != 31 || rn != 31 || shift != 0 || imm6 != 0 then None
      else Writes(rd, Ones(sf))
    case Other => None
  }

  function Apply(c: Core, e: Effect): Core {
    if e.Writes? && e.rd < |c.x| then c.(x := c.x[e.rd := e.value], pc := (c.pc + 4) % WORD) else c.(defined := false)
  }

  function Step(c: Core, i: Inst): Core { Apply(c, EffectOf(i, c.x, c.pc)) }

  function Run(c: Core, insts: seq<Inst>): Core {
    if insts == [] then c else Step(Run(c, insts[..|insts| - 1]), insts[|insts| - 1])
  }

  lemma RunSnoc(c: Core, insts: seq<Inst>, i: Inst)
    ensures Run(c, insts + [i]) == Step(Run(c, insts), i)
  {
    assert (insts + [i])[..|insts|] == insts;
  }

  function DecodeAll(words: seq<nat>): (r: seq<Inst>)
    ensures |r| == |words|
  {
    seq(|words|, i requires 0 <= i < |words| => Decode(words[i]))
  }

  lemma DecodeSnoc(words: seq<nat>, w: nat)
    ensures DecodeAll(words + [w]) == DecodeAll(words) + [Decode(w)]
  {}
}
