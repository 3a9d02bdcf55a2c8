/** A decoder for the x86-64 instructions and operands that Common/x64Emitter.cpp writes, after
    the Intel 64 and IA-32 Architectures Software Developer's Manual, volume 2A, sections 2.1.5
    (ModR/M and SIB bytes) and 2.2.1 (REX prefixes), and its opcode maps. */
module X64Decoder {

  import opened ByteOrder

  // Registers by number, 0 to 15; 0x104 to 0x107 are the high bytes AH, CH, DH and BH.  A missing
  // base or index is -1.
  datatype Operand =
    | Register(num: nat)
    | Memory(base: int, index: int, scale: nat, disp: int)
    | Address(target: int) // relative to the instruction pointer
    | Immediate(value: int)

  datatype Op = ADD | OR | ADC | SBB | AND | SUB | XOR | CMP | MOV | TEST | XCHG

  datatype Option<T> = None | Some(value: T)

  datatype Instruction = Instruction(op: Op, bits: nat, dst: Operand, src: Operand)

  // ------------------------------------------------------------ numbers

  function ToSigned(x: nat, bits: nat): int
    requires bits == 8 || bits == 16 || bits == 32
  {
    if bits == 8 then (if x < 0x80 then x else x - 0x100)
    else if bits == 16 then (if x < 0x8000 then x else x - 0x1_0000)
    else if x < 0x8000_0000 then x else x - 0x1_0000_0000
  }

  function Size(bits: nat): nat {
    if bits == 8 then 0x100 else if bits == 16 then 0x1_0000 else if bits == 32 then 0x1_0000_0000
      else 0x1_0000_0000_0000_0000
  }

  // An integer of n bytes off the front.
  function Take(s: seq<Byte>, n: nat): Option<(nat, seq<Byte>)> {
    if |s| < n then None else Some((Number(s[..n]), s[n..]))
  }

  // ------------------------------------------------------------ the REX prefix

  datatype Rex = Rex(present: bool, w: bool, r: bool, x: bool, b: bool)

  const NO_REX := Rex(false, false, false, false, false)

  function RexOf(byte: Byte): Rex {
    Rex(true, byte / 8 % 2 == 1, byte / 4 % 2 == 1, byte / 2 % 2 == 1, byte % 2 == 1)
  }

  function Extend(low: nat, bit: bool): nat { if bit then low + 8 else low }

  // A register number as an operand of `bits` bits: without REX the byte registers 4 to 7 are
  // the high bytes.
  function RegisterOf(num: nat, bits: nat, rex: Rex): Operand {
    if bits == 8 && !rex.present && 4 <= num < 8 then Register(num + 0x100) else Register(num)
  }

  // ------------------------------------------------------------ ModR/M, SIB and displacement

  // The reg field, the r/m operand and the bytes behind.  A relative address still lacks the end
  // of the instruction.
  datatype ModRM = ModRM(reg: nat, rm: Operand, rest: seq<Byte>)

  function DecodeModRM(s: seq<Byte>, bits: nat, rex: Rex): Option<ModRM> {
    if s == [] then None else
    var mod, reg, rm := s[0] / 64, Extend(s[0] / 8 % 8, rex.r), s[0] % 8;
    if mod == 3 then Some(ModRM(reg, RegisterOf(Extend(rm, rex.b), bits, rex), s[1..]))
    else if rm == 4 then
      if |s| < 2 then None else WithSib(reg, mod, s[1], s[2..], rex)
    else if rm == 5 && mod == 0 then
      var d := Take(s[1..], 4);
      if d.None? then None else Some(ModRM(reg, Address(ToSigned(d.value.0 % 0x1_0000_0000, 32)), d.value.1))
    else
      WithDisplacement(reg, mod, Extend(rm, rex.b), -1, 1, s[1..])
  }

  function WithSib(reg: nat, mod: nat, sib: Byte, s: seq<Byte>, rex: Rex): Option<ModRM> {
    var index := Extend(sib / 8 % 8, rex.x);
    var ss := sib / 64;
    var scale := if index == 4 || ss == 0 then 1 else if ss == 1 then 2 else if ss == 2 then 4 else 8;
    var index' := if index == 4 then -1 else index;
    if sib % 8 == 5 && mod == 0 then WithDisplacement(reg, 2, -1, index', scale, s)
    else WithDisplacement(reg, mod, Extend(sib % 8, rex.b), index', scale, s)
  }

  function WithDisplacement(reg: nat, mod: nat, base: int, index: int, scale: nat, s: seq<Byte>): Option<ModRM> {
    if mod == 0 then Some(ModRM(reg, Memory(base, index, scale, 0), s))
    else
      var n := if mod == 1 then 1 else 4;
      var d := Take(s, n);
      if d.None? then None
      else Some(ModRM(reg, Memory(base, index, scale, ToSigned(d.value.0 % Size(8 * n), 8 * n)), d.value.1))
  }

  // ------------------------------------------------------------ instructions

  // n bytes of immediate for an operand of `bits` bits, sign-extended.
  function SignExtend(v: nat, n: nat, bits: nat): int {
    if 8 * n >= bits || v % Size(8 * n) < Size(8 * n) / 2 then v else v + (Size(bits) - Size(8 * n))
  }

  function Resolve(o: Operand, next: nat): Operand { if o.Address? then Address(next + o.target) else o }

  // What comes before the opcode: the operand-size prefix and REX.
  datatype Prefixes = Prefixes(wordSize: bool, rex: Rex, rest: seq<Byte>)

  function TakeRex(wordSize: bool, s: seq<Byte>): Prefixes {
    if s != [] && 0x40 <= s[0] < 0x50 then Prefixes(wordSize, RexOf(s[0]), s[1..]) else Prefixes(wordSize, NO_REX, s)
  }

  function TakePrefixes(b: seq<Byte>): Prefixes {
    if b != [] && b[0] == 0x66 then TakeRex(true, b[1..]) else TakeRex(false, b)
  }

  // The bytes are one instruction at ip and nothing more.
  function Decode(b: seq<Byte>, ip: nat): Option<Instruction> {
    var p := TakePrefixes(b);
    if p.rest == [] then None
    else Perform(Classify(p.rest[0], if p.rex.w then 64 else if p.wordSize then 16 else 32), p.rest[1..], p.rex,
      ip + |b|)
  }

  function AluOp(n: nat): Op {
    if n == 0 then ADD else if n == 1 then OR else if n == 2 then ADC else if n == 3 then SBB
    else if n == 4 then AND else if n == 5 then SUB else if n == 6 then XOR else CMP
  }

  // What an opcode calls for: two operands of which one is a register, an operand and n bytes of
  // immediate, or a register (its low bits in the opcode, or the accumulator) and n bytes.
  datatype Form =
    | RmRegForm(op: Op, bits: nat, toRm: bool)
    | RmImmForm(group: Option<Op>, bits: nat, n: nat)
    | RegImmForm(op: Op, low: nat, inOpcode: bool, bits: nat, n: nat)
    | Undefined

  function Classify(c: Byte, bits: nat): Form {
    var z := if bits == 16 then 2 else 4;
    if c < 0x40 && c % 8 < 4 then RmRegForm(AluOp(c / 8), if c % 2 == 0 then 8 else bits, c % 8 < 2)
    else if c < 0x40 && c % 8 == 4 then RegImmForm(AluOp(c / 8), 0, false, 8, 1)
    else if c < 0x40 && c % 8 == 5 then RegImmForm(AluOp(c / 8), 0, false, bits, z)
    else if c == 0x80 then RmImmForm(None, 8, 1)
    else if c == 0x81 then RmImmForm(None, bits, z)
    else if c == 0x83 then RmImmForm(None, bits, 1)
    else if c == 0x84 then RmRegForm(TEST, 8, true)
    else if c == 0x85 then RmRegForm(TEST, bits, true)
    else if c == 0x86 then RmRegForm(XCHG, 8, true)
    else if c == 0x87 then RmRegForm(XCHG, bits, true)
    else if c == 0x88 then RmRegForm(MOV, 8, true)
    else if c == 0x89 then RmRegForm(MOV, bits, true)
    else if c == 0x8A then RmRegForm(MOV, 8, false)
    else if c == 0x8B then RmRegForm(MOV, bits, false)
    else if c == 0xA8 then RegImmForm(TEST, 0, false, 8, 1)
    else if c == 0xA9 then RegImmForm(TEST, 0, false, bits, z)
    else if 0xB0 <= c < 0xB8 then RegImmForm(MOV, c - 0xB0, true, 8, 1)
    else if 0xB8 <= c < 0xC0 then RegImmForm(MOV, c - 0xB8, true, bits, if bits == 64 then 8 else z)
    else if c == 0xC6 then RmImmForm(Some(MOV), 8, 1)
    else if c == 0xC7 then RmImmForm(Some(MOV), bits, z)
    else if c == 0xF6 then RmImmForm(Some(TEST), 8, 1)
    else if c == 0xF7 then RmImmForm(Some(TEST), bits, z)
    else Undefined
  }

  function Perform(f: Form, s: seq<Byte>, rex: Rex, next: nat): Option<Instruction> {
    match f
    case RmRegForm(op, bits, toRm) => RmReg(op, bits, toRm, s, rex, next)
    case RmImmForm(group, bits, n) => RmImm(group, bits, n, s, rex, next)
    case RegImmForm(op, low, inOpcode, bits, n) => RegImm(op, if inOpcode then Extend(low, rex.b) else low, bits, n, s,
      rex)
    case Undefined => None
  }

  function RmReg(op: Op, bits: nat, toRm: bool, s: seq<Byte>, rex: Rex, next: nat): Option<Instruction> {
    var m := DecodeModRM(s, bits, rex);
    if m.None? || m.value.rest != [] then None
    else
      var rm, reg := Resolve(m.value.rm, next), RegisterOf(m.value.reg, bits, rex);
      Some(if toRm then Instruction(op, bits, rm, reg) else Instruction(op, bits, reg, rm))
  }

  // The operation is in the reg field, or must be 0 there.
  function RmImm(op: Option<Op>, bits: nat, n: nat, s: seq<Byte>, rex: Rex, next: nat): Option<Instruction> {
    var m := DecodeModRM(s, bits, rex);
    if m.None? || |m.value.rest| != n || (op.Some? && m.value.reg % 8 != 0) then None
    else
      Some(Instruction(if op.Some? then op.value else AluOp(m.value.reg % 8), bits, Resolve(m.value.rm, next),
                       Immediate(SignExtend(Number(m.value.rest), n, bits))))
  }

  function RegImm(op: Op, num: nat, bits: nat, n: nat, s: seq<Byte>, rex: Rex): Option<Instruction> {
    if |s| != n then None
    else Some(Instruction(op, bits, RegisterOf(num, bits, rex), Immediate(SignExtend(Number(s), n, bits))))
  }

  // ------------------------------------------------------------ moves that widen

  // MOVZX, MOVSX and MOVSXD: a source of sbits bits into a register of dbits bits.
  datatype Widening = Widening(signed: bool, dbits: nat, sbits: nat, dst: Operand, src: Operand)

  datatype WideForm = WideForm(signed: bool, sbits: nat, skip: nat)

  function ClassifyWide(s: seq<Byte>, bits: nat): Option<WideForm> {
    if |s| >= 1 && s[0] == 0x63 && bits == 64 then Some(WideForm(true, 32, 1))
    else if |s| < 2 || s[0] != 0x0F then None
    else if s[1] == 0xB6 || s[1] == 0xBE then Some(WideForm(s[1] == 0xBE, 8, 2))
    else if s[1] == 0xB7 || s[1] == 0xBF then Some(WideForm(s[1] == 0xBF, 16, 2))
    else None
  }

  function DecodeWide(b: seq<Byte>, ip: nat): Option<Widening> {
    var p := TakePrefixes(b);
    var bits := if p.rex.w then 64 else if p.wordSize then 16 else 32;
    var f := ClassifyWide(p.rest, bits);
    if f.None? || |p.rest| < f.value.skip then None
    else PerformWide(f.value, bits, p.rest[f.value.skip..], p.rex, ip + |b|)
  }

  function PerformWide(f: WideForm, bits: nat, s: seq<Byte>, rex: Rex, next: nat): Option<Widening> {
    var m := DecodeModRM(s, f.sbits, rex);
    if m.None? || m.value.rest != [] then None
    else Some(Widening(f.signed, bits, f.sbits, RegisterOf(m.value.reg, bits, rex), Resolve(m.value.rm, next)))
  }
}
