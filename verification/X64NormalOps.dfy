/** OpArg::WriteNormalOp and XEmitter::WriteNormalOp of Common/x64Emitter.cpp: what they write is,
    to the decoder, the instruction they were asked for. */
module X64NormalOps {
  import opened ByteOrder
  import opened X64Decoder
  import opened X64Emitter

  datatype NormalOpDef = NormalOpDef(toRm8: Byte, toRm32: Byte, fromRm8: Byte, fromRm32: Byte, imm8: Byte, imm32: Byte,
                                     simm8: Byte, eaximm8: Byte, eaximm32: Byte, ext: nat)

  // normalops.  0xCC stands for a form that does not exist.
  function Def(op: Op): NormalOpDef {
    match op
    case ADD => NormalOpDef(0x00, 0x01, 0x02, 0x03, 0x80, 0x81, 0x83, 0x04, 0x05, 0)
    case ADC => NormalOpDef(0x10, 0x11, 0x12, 0x13, 0x80, 0x81, 0x83, 0x14, 0x15, 2)
    case SUB => NormalOpDef(0x28, 0x29, 0x2A, 0x2B, 0x80, 0x81, 0x83, 0x2C, 0x2D, 5)
    case SBB => NormalOpDef(0x18, 0x19, 0x1A, 0x1B, 0x80, 0x81, 0x83, 0x1C, 0x1D, 3)
    case AND => NormalOpDef(0x20, 0x21, 0x22, 0x23, 0x80, 0x81, 0x83, 0x24, 0x25, 4)
    case OR => NormalOpDef(0x08, 0x09, 0x0A, 0x0B, 0x80, 0x81, 0x83, 0x0C, 0x0D, 1)
    case XOR => NormalOpDef(0x30, 0x31, 0x32, 0x33, 0x80, 0x81, 0x83, 0x34, 0x35, 6)
    case MOV => NormalOpDef(0x88, 0x89, 0x8A, 0x8B, 0xC6, 0xC7, 0xCC, 0xCC, 0xCC, 0)
    case TEST => NormalOpDef(0x84, 0x85, 0x84, 0x85, 0xF6, 0xF7, 0xCC, 0xA8, 0xA9, 0)
    case CMP => NormalOpDef(0x38, 0x39, 0x3A, 0x3B, 0x80, 0x81, 0x83, 0x3C, 0x3D, 7)
    case XCHG => NormalOpDef(0x86, 0x87, 0x86, 0x87, 0xCC, 0xCC, 0xCC, 0xCC, 0xCC, 7)
  }

  predicate IsWidth(bits: nat) { bits == 8 || bits == 16 || bits == 32 || bits == 64 }

  // ------------------------------------------------------------ instructions from their parts

  function Head(bits: nat, rex: Rex): seq<Byte> { (if bits == 16 then [0x66] else []) + RexBytes(rex) }

  // No field without the prefix, and REX.W exactly for 64-bit operands.
  predicate FitsRex(bits: nat, rex: Rex) { (!rex.present ==> rex == NO_REX) && rex.w == (bits == 64) }

  lemma RexRoundTrip(rex: Rex)
    requires rex.present
    ensures 0x40 <= RexByte(rex) < 0x50 && RexOf(RexByte(rex)) == rex
  {
    var w, r, x, b := if rex.w then 8 else 0, if rex.r then 4 else 0, if rex.x then 2 else 0, if rex.b then 1 else 0;
    assert RexByte(rex) == 0x40 + w + r + x + b;
  }

  lemma PrefixesOf(bits: nat, rex: Rex, c: Byte, tail: seq<Byte>)
    requires FitsRex(bits, rex) && c != 0x66 && !(0x40 <= c < 0x50)
    ensures TakePrefixes(Head(bits, rex) + [c] + tail) == Prefixes(bits == 16, rex, [c] + tail)
  {
    var s := RexBytes(rex) + [c] + tail;
    if bits == 16 { assert (Head(bits, rex) + [c] + tail)[1..] == s; }
      else { assert Head(bits, rex) + [c] + tail == s; }
    if rex.present {
      RexRoundTrip(rex);
      assert s[1..] == [c] + tail;
    } else {
      assert s == [c] + tail;
    }
  }

  // The operand size the prefixes give; 8-bit opcodes do not use it.
  function Wide(bits: nat): nat { if bits == 8 then 32 else bits }

  // The opcode is not taken for a prefix, and calls for this form.
  predicate Calls(bits: nat, rex: Rex, c: Byte, form: Form) {
    IsWidth(bits) && FitsRex(bits, rex) && c != 0x66 && !(0x40 <= c < 0x50) && Classify(c, Wide(bits)) == form
  }

  lemma Assembled(bits: nat, rex: Rex, c: Byte, tail: seq<Byte>, ip: nat, next: nat, form: Form, r: Option<Instruction>)
    requires Calls(bits, rex, c, form) == true && next == ip + |Head(bits, rex)| + 1 + |tail|
        && Perform(form, tail, rex, next) == r
    ensures Decode(Head(bits, rex) + [c] + tail, ip) == r
  {
    PrefixesOf(bits, rex, c, tail);
    assert ([c] + tail)[1..] == tail;
  }

  // Behind the prefixes stands the opcode c; k bytes further a ModR/M byte of this mode.
  predicate HasOpcode(b: seq<Byte>, c: Byte) { TakePrefixes(b).rest != [] && TakePrefixes(b).rest[0] == c }

  predicate HasMode(b: seq<Byte>, k: nat, mod: nat) {
    k < |TakePrefixes(b).rest| && TakePrefixes(b).rest[k] / 64 == mod
  }

  lemma Opened(bits: nat, rex: Rex, c: Byte, tail: seq<Byte>)
    requires FitsRex(bits, rex) && c != 0x66 && !(0x40 <= c < 0x50)
    ensures HasOpcode(Head(bits, rex) + [c] + tail, c)
    ensures tail != [] ==> HasMode(Head(bits, rex) + [c] + tail, 1, tail[0] / 64)
  {
    PrefixesOf(bits, rex, c, tail);
  }

  // ------------------------------------------------------------ register forms

  predicate Symmetric(op: Op) { op == TEST || op == XCHG }

  function RegOpcode(op: Op, toRM: bool, bits: nat): Byte {
    if toRM then (if bits == 8 then Def(op).toRm8 else Def(op).toRm32) else if bits == 8 then Def(op).fromRm8
      else Def(op).fromRm32
  }

  lemma RegOpcodeIs(op: Op, toRM: bool, bits: nat, rex: Rex)
    requires IsWidth(bits) && FitsRex(bits, rex)
    ensures Calls(bits, rex, RegOpcode(op, toRM, bits), RmRegForm(op, bits, toRM || Symmetric(op))) == true
  {}

  lemma RegisterNamed(r: nat, bits: nat, rex: Rex, bit: bool)
    requires IsReg(r) && Reaches(r, bits, rex) && bit == (r / 8 % 2 == 1)
    ensures RegisterOf(Extend(r % 8, bit), bits, rex) == Register(r) && (bit <==> 8 <= r < 16)
  {}

  // The operands as the instruction should have them.
  function RegInstruction(op: Op, bits: nat, toRM: bool, a: OpArg, r: nat): Instruction {
    if toRM || Symmetric(op) then Instruction(op, bits, Seen(a), Register(r))
      else Instruction(op, bits, Register(r), Seen(a))
  }

  // The operand's bytes, once written, and where the instruction really ends.
  ghost predicate OperandAt(rest: seq<Byte>, a: OpArg, reg: nat, bits: nat, rex: Rex, at: nat, next: nat) {
    ReadsAs(rest, a, reg, at) && Admits(a, bits, rex, at, next)
  }

  lemma RmRegIs(op: Op, bits: nat, toRm: bool, a: OpArg, r: nat, rex: Rex, at: nat, next: nat, rest: seq<Byte>)
    requires IsReg(r) && Reaches(r, bits, rex) && rex.r == (r / 8 % 2 == 1)
        && OperandAt(rest, a, r, bits, rex, at, next)
    ensures RmReg(op, bits, toRm, rest, rex, next)
         == Some(if toRm then Instruction(op, bits, Seen(a), Register(r))
           else Instruction(op, bits, Register(r), Seen(a)))
  {
    RegisterNamed(r, bits, rex, rex.r);
    assert Reads(rest, [], bits, rex, a, r, next);
    assert rest + [] == rest;
  }

  // The register forms decode to the operation with its operands in order.
  lemma RegFormDecodes(op: Op, bits: nat, toRM: bool, a: OpArg, r: nat, ip: nat, rex: Rex, at: nat, rest: seq<Byte>)
    requires IsWidth(bits) && IsReg(r) && Reaches(r, bits, rex) && FitsRex(bits, rex) && rex.r == (r / 8 % 2 == 1)
    requires OperandAt(rest, a, r, bits, rex, at, ip + |Head(bits, rex)| + 1 + |rest|)
    ensures Decode(Head(bits, rex) + [RegOpcode(op, toRM, bits)] + rest, ip)
        == Some(RegInstruction(op, bits, toRM, a, r))
  {
    var toRm, next := toRM || Symmetric(op), ip + |Head(bits, rex)| + 1 + |rest|;
    RmRegIs(op, bits, toRm, a, r, rex, at, next, rest);
    RegOpcodeIs(op, toRM, bits, rex);
    Assembled(bits, rex, RegOpcode(op, toRM, bits), rest, ip, next, RmRegForm(op, bits, toRm),
      Some(RegInstruction(op, bits, toRM, a, r)));
  }

  // ------------------------------------------------------------ immediate forms

  // The forms with an r/m operand: opcode, and bytes of immediate.
  datatype Written = Written(c: Byte, n: nat)

  function RmForm(op: Op, bits: nat, short: bool): Written {
    if bits == 8 then Written(Def(op).imm8, 1)
    else if short then Written(Def(op).simm8, 1)
    else Written(Def(op).imm32, if bits == 16 then 2 else 4)
  }

  predicate HasShort(op: Op) { Def(op).simm8 != 0xCC }

  // XCHG takes no immediate; MOV and TEST have no short form.
  predicate Missing(op: Op, bits: nat, short: bool) { op == XCHG || (short && bits != 8 && !HasShort(op)) }

  function GroupOf(op: Op): Option<Op> { if op == MOV || op == TEST then Some(op) else None }

  function RmImmFormOf(op: Op, bits: nat, short: bool): Form {
    if Missing(op, bits, short) then Undefined else RmImmForm(GroupOf(op), bits, RmForm(op, bits, short).n)
  }

  lemma RmFormIs(op: Op, bits: nat, short: bool, rex: Rex)
    requires IsWidth(bits) && FitsRex(bits, rex)
    ensures Calls(bits, rex, RmForm(op, bits, short).c, RmImmFormOf(op, bits, short))
  {}

  lemma Extension(op: Op)
    ensures Def(op).ext < 8 && (if GroupOf(op).Some? then Def(op).ext == 0 else op != XCHG ==> AluOp(Def(op).ext) == op)
  {}

  lemma RmImmIs(op: Op, bits: nat, s: seq<Byte>, m: ModRM, rex: Rex, next: nat, form: Form)
    requires op != XCHG && DecodeModRM(s, bits, rex) == Some(m) && m.reg == Def(op).ext
        && form == RmImmForm(GroupOf(op), bits, |m.rest|)
    ensures Perform(form, s, rex, next)
         == Some(Instruction(op, bits, Resolve(m.rm, next), Immediate(SignExtend(Number(m.rest), |m.rest|, bits))))
  {
    Extension(op);
  }

  function RmImmResult(op: Op, bits: nat, a: OpArg, v: nat, short: bool): Option<Instruction> {
    if Missing(op, bits, short) then None
    else Some(Instruction(op, bits, Seen(a), Immediate(SignExtend(v, RmForm(op, bits, short).n, bits))))
  }

  lemma GroupReads(bits: nat, a: OpArg, ext: nat, next: nat, rex: Rex, at: nat, rest: seq<Byte>, imm: seq<Byte>,
                   tail: seq<Byte>)
    returns (m: ModRM)
    requires ext < 8 && !rex.r && tail == rest + imm && OperandAt(rest, a, ext, bits, rex, at, next)
    ensures DecodeModRM(tail, bits, rex) == Some(m) && m.reg == ext && m.rest == imm && Resolve(m.rm, next) == Seen(a)
  {
    assert Reads(rest, imm, bits, rex, a, ext, next);
    m := DecodeModRM(tail, bits, rex).value;
  }

  lemma RmImmPerforms(op: Op, bits: nat, a: OpArg, short: bool, next: nat, rex: Rex, at: nat, rest: seq<Byte>,
                      imm: seq<Byte>,
                      tail: seq<Byte>, form: Form, r: Option<Instruction>)
    requires IsWidth(bits) && |imm| == RmForm(op, bits, short).n && !rex.r && tail == rest + imm
    requires OperandAt(rest, a, Def(op).ext, bits, rex, at, next)
    requires form == RmImmFormOf(op, bits, short) && r == RmImmResult(op, bits, a, Number(imm), short)
    ensures Perform(form, tail, rex, next) == r
  {
    if !Missing(op, bits, short) {
      Extension(op);
      var m := GroupReads(bits, a, Def(op).ext, next, rex, at, rest, imm, tail);
      RmImmIs(op, bits, tail, m, rex, next, form);
    }
  }

  lemma RmImmDecodes(op: Op, bits: nat, a: OpArg, short: bool, ip: nat, rex: Rex, at: nat, rest: seq<Byte>,
                     imm: seq<Byte>, f: Written)
    requires IsWidth(bits) && f == RmForm(op, bits, short) && |imm| == f.n && FitsRex(bits, rex) && !rex.r
    requires OperandAt(rest, a, Def(op).ext, bits, rex, at, ip + |Head(bits, rex)| + 1 + |rest| + f.n)
    ensures Decode(Head(bits, rex) + [f.c] + (rest + imm), ip) == RmImmResult(op, bits, a, Number(imm), short)
  {
    var tail, form, r := rest + imm, RmImmFormOf(op, bits, short), RmImmResult(op, bits, a, Number(imm), short);
    var next := ip + |Head(bits, rex)| + 1 + |tail|;
    RmFormIs(op, bits, short, rex);
    RmImmPerforms(op, bits, a, short, next, rex, at, rest, imm, tail, form, r);
    Assembled(bits, rex, f.c, tail, ip, next, form, r);
  }

  // The forms with the register in the opcode, or AL, AX, EAX or RAX implied.
  predicate IsRegImm(op: Op, bits: nat, r: nat, w: Written) {
    || (op == MOV && bits == 8 && w == Written(0xB0 + r % 8, 1))
    || (op == MOV && bits != 8 && w == Written(0xB8 + r % 8, if bits == 16 then 2 else if bits == 32 then 4 else 8))
    || (r == 0 && bits == 8 && w == Written(Def(op).eaximm8, 1) && w.c != 0xCC)
    || (r == 0 && bits != 8 && w == Written(Def(op).eaximm32, if bits == 16 then 2 else 4) && w.c != 0xCC)
  }

  function RegImmFormOf(op: Op, bits: nat, r: nat, w: Written): Form {
    RegImmForm(op, if op == MOV then r % 8 else 0, op == MOV, bits, w.n)
  }

  lemma RegImmOpcode(op: Op, bits: nat, r: nat, w: Written, rex: Rex)
    requires IsWidth(bits) && FitsRex(bits, rex) && IsRegImm(op, bits, r, w)
    ensures Calls(bits, rex, w.c, RegImmFormOf(op, bits, r, w))
  {}

  lemma RegImmDecodes(op: Op, bits: nat, r: nat, w: Written, v: nat, ip: nat, rex: Rex)
    requires IsWidth(bits) && IsReg(r) && v < Limit(w.n) && FitsRex(bits, rex) && rex.b == (r / 8 % 2 == 1)
    requires Reaches(r, bits, rex) && IsRegImm(op, bits, r, w)
    ensures Decode(Head(bits, rex) + [w.c] + Le(v, w.n), ip)
        == Some(Instruction(op, bits, Register(r), Immediate(SignExtend(v, w.n, bits))))
  {
    LeNumber(v, w.n);
    RegisterNamed(r, bits, rex, rex.b);
    RegImmOpcode(op, bits, r, w, rex);
    Assembled(bits, rex, w.c, Le(v, w.n), ip, ip + |Head(bits, rex)| + 1 + w.n, RegImmFormOf(op, bits, r, w),
              Some(Instruction(op, bits, Register(r), Immediate(SignExtend(v, w.n, bits)))));
  }

  // ------------------------------------------------------------ the immediate

  // The immediate that is meant, sign-extended to the operand's size.
  function ImmValue(operand: OpArg, bits: nat): int {
    if operand.scale == SCALE_IMM8 then SignExtend(operand.offset % 0x100, 1, bits)
    else if operand.scale == SCALE_IMM16 then SignExtend(operand.offset % 0x1_0000, 2, bits)
    else if operand.scale == SCALE_IMM32 then SignExtend(operand.offset % 0x1_0000_0000, 4, bits)
    else operand.offset
  }

  // (s16)offset == (s8)offset or (s32)offset == (s8)offset.
  predicate FitsByte(operand: OpArg) {
    var s8 := ToSigned(operand.offset % 0x100, 8);
    || (operand.scale == SCALE_IMM16 && ToSigned(operand.offset % 0x1_0000, 16) == s8)
    || (operand.scale == SCALE_IMM32 && ToSigned(operand.offset % 0x1_0000_0000, 32) == s8)
  }

  // The one-byte form is used.
  predicate Short(op: Op, operand: OpArg, bits: nat) {
    bits != 8 && (operand.scale == SCALE_IMM8 || (HasShort(op) && FitsByte(operand)))
  }

  // The shortened immediate sign-extends to the one that is meant.
  lemma ShorteningKeepsValue(op: Op, operand: OpArg, bits: nat)
    requires Short(op, operand, bits) && (operand.scale == SCALE_IMM16 ==> bits == 16)
    requires operand.scale == SCALE_IMM32 ==> bits == 32 || bits == 64
    ensures SignExtend(operand.offset % 0x100, 1, bits) == ImmValue(operand, bits)
  {}

  // The immediates WriteNormalOp has a case for.
  predicate Handled(op: Op, a: OpArg, operand: OpArg, bits: nat) {
    || operand.scale == SCALE_IMM8
    || (operand.scale == SCALE_IMM16 && bits == 16)
    || (operand.scale == SCALE_IMM32 && (bits == 32 || bits == 64))
    || (operand.scale == SCALE_IMM64 && bits == 64 && op == MOV && a.scale == SCALE_NONE)
  }

  function ImmBytes(op: Op, operand: OpArg, bits: nat): nat {
    if operand.IsImm() then RmForm(op, bits, Short(op, operand, bits)).n else 0
  }

  // Where the instruction ends when its operand is relative to that.
  function RipEnd(op: Op, a: OpArg, operand: OpArg, bits: nat, ip: nat): nat {
    ip + |Head(bits, RexFor(a, bits, bits, if operand.IsImm() then 0 else operand.offsetOrBaseReg))| + 6
      + ImmBytes(op, operand, bits)
  }

  ghost predicate CanWrite(op: Op, bits: nat, toRM: bool, a: OpArg, operand: OpArg, ip: nat) {
    var rex, next := RexFor(a, bits, bits, if operand.IsImm() then 0 else operand.offsetOrBaseReg),
      RipEnd(op, a, operand, bits, ip);
    && IsWidth(bits) && IsOperand(a) && Admits(a, bits, rex, next, next) && operand.offset < 0x1_0000_0000_0000_0000
    && (operand.IsImm() ==> toRM && Handled(op, a, operand, bits))
    && (!operand.IsImm() ==>
      operand.scale == SCALE_NONE && IsReg(operand.offsetOrBaseReg) && Reaches(operand.offsetOrBaseReg, bits, rex))
  }

  // What the bytes should decode to; None where the table has no such form and a breakpoint is
  // written instead.
  function Wanted(op: Op, bits: nat, toRM: bool, a: OpArg, operand: OpArg): Option<Instruction> {
    if !operand.IsImm() then Some(RegInstruction(op, bits, toRM, a, operand.offsetOrBaseReg))
    else if Missing(op, bits, Short(op, operand, bits)) then None
    else Some(Instruction(op, bits, Seen(a), Immediate(ImmValue(operand, bits))))
  }

  // ------------------------------------------------------------ the writers

  method WriteHead(emit: XEmitter, a: OpArg, bits: nat, customOp: nat)
    modifies emit
    ensures emit.code == old(emit.code) + Head(bits, RexFor(a, bits, bits, customOp))
  {
    if bits == 16 { emit.Write8(0x66); }
    emit.WriteRex(a, bits, bits, customOp);
  }

  // The opcode that carries its register, where one is used: first AL, then MOV; for wider
  // operands not if one byte of immediate will do.
  function RegImmUsed(op: Op, bits: nat, a: OpArg, operand: OpArg): Option<Written> {
    var r, n := a.offsetOrBaseReg, if bits == 16 then 2 else 4;
    if a.scale != SCALE_NONE || Short(op, operand, bits) then None
    else if bits == 8 then
      if r == 0 && Def(op).eaximm8 != 0xCC then Some(Written(Def(op).eaximm8, 1))
      else if op == MOV then Some(Written(0xB0 + r % 8, 1)) else None
    else if operand.scale == SCALE_IMM64 then Some(Written(0xB8 + r % 8, 8))
    else if op == MOV && bits != 64 then Some(Written(0xB8 + r % 8, n))
    else if r == 0 && Def(op).eaximm32 != 0xCC then Some(Written(Def(op).eaximm32, n))
    else None
  }

  lemma ImmIs(op: Op, bits: nat, operand: OpArg, n: nat)
    requires IsWidth(bits) && operand.offset < Limit(8)
    requires operand.scale == SCALE_IMM8 ==> n == 1
    requires operand.scale == SCALE_IMM16 ==> bits == 16 && n == 2
    requires operand.scale == SCALE_IMM32 ==> (bits == 32 || bits == 64) && n == 4
    requires operand.scale == SCALE_IMM64 ==> bits == 64 && n == 8
    requires operand.IsImm()
    ensures SignExtend(operand.offset % Limit(n), n, bits) == ImmValue(operand, bits)
  {
    Limits();
  }

  lemma RegImmUsedIs(op: Op, bits: nat, a: OpArg, operand: OpArg, w: Written)
    requires IsWidth(bits) && Handled(op, a, operand, bits) && RegImmUsed(op, bits, a, operand) == Some(w)
    ensures IsRegImm(op, bits, a.offsetOrBaseReg, w) && !Missing(op, bits, Short(op, operand, bits))
    ensures operand.scale == SCALE_IMM8 ==> w.n == 1
    ensures operand.scale == SCALE_IMM16 ==> w.n == 2
    ensures operand.scale == SCALE_IMM32 ==> w.n == 4
    ensures operand.scale == SCALE_IMM64 ==> w.n == 8
  {}

  // The bytes added at ip decode to r.
  ghost predicate Wrote(code: seq<Byte>, code': seq<Byte>, ip: nat, r: Option<Instruction>) {
    code <= code' && Decode(code'[|code|..], ip) == r
  }

  lemma WroteIs(code: seq<Byte>, code': seq<Byte>, b: seq<Byte>, ip: nat, r: Option<Instruction>)
    requires code' == code + b && Decode(b, ip) == r
    ensures Wrote(code, code', ip, r)
  {
    assert code'[|code|..] == b;
  }

  lemma RegisterWritten(op: Op, bits: nat, toRM: bool, a: OpArg, r: nat, ip: nat, rex: Rex, rest: seq<Byte>,
                        code: seq<Byte>, code': seq<Byte>)
    requires IsWidth(bits) && IsReg(r) && IsOperand(a) && rex == RexFor(a, bits, bits, r) && Reaches(r, bits, rex)
    requires var at := ip + |Head(bits, rex)| + 6; ReadsAs(rest, a, r, at) && Admits(a, bits, rex, at, at)
    requires (a.scale == SCALE_RIP ==> |rest| == 5) && rest != []
        && code' == code + (Head(bits, rex) + [RegOpcode(op, toRM, bits)] + rest)
    ensures Wrote(code, code', ip, Some(RegInstruction(op, bits, toRM, a, r))) == true
    ensures HasMode(code'[|code|..], 1, rest[0] / 64)
  {
    assert code'[|code|..] == Head(bits, rex) + [RegOpcode(op, toRM, bits)] + rest;
    RegOpcodeIs(op, toRM, bits, rex);
    Opened(bits, rex, RegOpcode(op, toRM, bits), rest);
    var at := ip + |Head(bits, rex)| + 6;
    RegFormDecodes(op, bits, toRM, a, r, ip, rex, at, rest);
    WroteIs(code, code', Head(bits, rex) + [RegOpcode(op, toRM, bits)] + rest, ip,
      Some(RegInstruction(op, bits, toRM, a, r)));
  }

  // OpArg::WriteNormalOp with a register operand.
  method WriteRegisterOp(emit: XEmitter, a: OpArg, toRM: bool, op: Op, operandReg: nat, bits: nat)
    returns (ghost rest: seq<Byte>)
    requires IsOperand(a)
    modifies emit
    ensures var head := Head(bits, RexFor(a, bits, bits, operandReg));
      && emit.code == old(emit.code) + (head + [RegOpcode(op, toRM, bits)] + rest)
        && (a.scale == SCALE_RIP ==> |rest| == 5)
      && ReadsAs(rest, a, operandReg, old(emit.GetCodePtr()) + |head| + 6) && rest != [] && rest[0] / 64 == ModOf(a)
  {
    WriteHead(emit, a, bits, operandReg);
    emit.Write8(RegOpcode(op, toRM, bits));
    rest := emit.WriteRest(a, 0, operandReg);
  }

  // The form of an immediate: in the opcode with its register, or with an r/m operand.
  method ChooseForm(a: OpArg, op: Op, operand: OpArg, bits: nat) returns (inOpcode: bool, w: Written)
    requires IsWidth(bits) && operand.IsImm() && Handled(op, a, operand, bits)
    ensures inOpcode == RegImmUsed(op, bits, a, operand).Some?
    ensures w == if inOpcode then RegImmUsed(op, bits, a, operand).value else RmForm(op, bits, Short(op, operand, bits))
  {
    var def, reg := Def(op), a.offsetOrBaseReg;
    if operand.scale == SCALE_IMM8 && bits == 8 {
      if a.scale == SCALE_NONE && reg == 0 && def.eaximm8 != 0xCC { return true, Written(def.eaximm8, 1); }
      if a.scale == SCALE_NONE && op == MOV { return true, Written(0xB0 + reg % 8, 1); }
      return false, Written(def.imm8, 1);
    } else if operand.scale == SCALE_IMM16 || operand.scale == SCALE_IMM32 {
      var n := if bits == 16 then 2 else 4;
      if def.simm8 != 0xCC && FitsByte(operand) { return false, Written(def.simm8, 1); }
      if a.scale == SCALE_NONE && op == MOV && bits != 64 { return true, Written(0xB8 + reg % 8, n); }
      if a.scale == SCALE_NONE && reg == 0 && def.eaximm32 != 0xCC { return true, Written(def.eaximm32, n); }
      return false, Written(def.imm32, n);
    } else if operand.scale == SCALE_IMM8 {
      return false, Written(def.simm8, 1);
    } else {
      return true, Written(0xB8 + reg % 8, 8);
    }
  }

  lemma RegImmWritten(op: Op, bits: nat, a: OpArg, operand: OpArg, w: Written, ip: nat, rex: Rex, code: seq<Byte>,
                      code': seq<Byte>)
    requires operand.IsImm() && CanWrite(op, bits, true, a, operand, ip) && RegImmUsed(op, bits, a, operand) == Some(w)
    requires rex == RexFor(a, bits, bits, 0)
        && code' == code + (Head(bits, rex) + [w.c] + Le(operand.offset % Limit(w.n), w.n))
    ensures Wrote(code, code', ip, Wanted(op, bits, true, a, operand)) == true
    ensures a.scale == SCALE_NONE && Wanted(op, bits, true, a, operand).Some?
  {
    var v := operand.offset % Limit(w.n);
    Limits();
    RegImmUsedIs(op, bits, a, operand, w);
    ImmIs(op, bits, operand, w.n);
    RegImmDecodes(op, bits, a.offsetOrBaseReg, w, v, ip, rex);
    WroteIs(code, code', Head(bits, rex) + [w.c] + Le(v, w.n), ip, Wanted(op, bits, true, a, operand));
  }

  lemma GroupOperand(op: Op, bits: nat, a: OpArg, operand: OpArg, n: nat, ip: nat, rex: Rex, rest: seq<Byte>)
    requires operand.IsImm() && CanWrite(op, bits, true, a, operand, ip) && rex == RexFor(a, bits, bits, 0)
        && n == ImmBytes(op, operand, bits)
    requires (a.scale == SCALE_RIP ==> |rest| == 5) && ReadsAs(rest, a, Def(op).ext, ip + |Head(bits, rex)| + 6 + n)
    ensures IsWidth(bits) && FitsRex(bits, rex) && !rex.r
    ensures OperandAt(rest, a, Def(op).ext, bits, rex, ip + |Head(bits, rex)| + 6 + n,
        ip + |Head(bits, rex)| + 1 + |rest| + n)
  {}

  lemma GroupWritten(op: Op, bits: nat, a: OpArg, operand: OpArg, w: Written, ip: nat, rex: Rex, rest: seq<Byte>,
                     code: seq<Byte>, code': seq<Byte>)
    requires operand.IsImm() && CanWrite(op, bits, true, a, operand, ip) && RegImmUsed(op, bits, a, operand) == None
    requires rex == RexFor(a, bits, bits, 0) && w == RmForm(op, bits, Short(op, operand, bits))
    requires (a.scale == SCALE_RIP ==> |rest| == 5) && ReadsAs(rest, a, Def(op).ext, ip + |Head(bits, rex)| + 6 + w.n)
    requires rest != []
    requires code' == code + (Head(bits, rex) + [w.c] + (rest + Le(operand.offset % Limit(w.n), w.n)))
    ensures Wrote(code, code', ip, Wanted(op, bits, true, a, operand)) == true
    ensures HasOpcode(code'[|code|..], w.c) && HasMode(code'[|code|..], 1, rest[0] / 64)
  {
    var imm := Le(operand.offset % Limit(w.n), w.n);
    GroupOperand(op, bits, a, operand, w.n, ip, rex, rest);
    GroupValue(op, bits, a, operand, imm, w.n);
    GroupBytes(op, bits, a, Short(op, operand, bits), imm, w, ip, rex, rest, code, code',
      Wanted(op, bits, true, a, operand));
  }

  lemma GroupBytes(op: Op, bits: nat, a: OpArg, short: bool, imm: seq<Byte>, w: Written, ip: nat, rex: Rex,
                   rest: seq<Byte>,
                   code: seq<Byte>, code': seq<Byte>, r: Option<Instruction>)
    requires IsWidth(bits) && w == RmForm(op, bits, short) && |imm| == w.n && FitsRex(bits, rex) && !rex.r
    requires OperandAt(rest, a, Def(op).ext, bits, rex, ip + |Head(bits, rex)| + 6 + w.n,
        ip + |Head(bits, rex)| + 1 + |rest| + w.n)
    requires code' == code + (Head(bits, rex) + [w.c] + (rest + imm)) && rest != []
        && r == RmImmResult(op, bits, a, Number(imm), short)
    ensures Wrote(code, code', ip, r) == true
    ensures HasOpcode(code'[|code|..], w.c) && HasMode(code'[|code|..], 1, rest[0] / 64)
  {
    assert code'[|code|..] == Head(bits, rex) + [w.c] + (rest + imm);
    RmFormIs(op, bits, short, rex);
    Opened(bits, rex, w.c, rest + imm);
    RmImmDecodes(op, bits, a, short, ip, rex, ip + |Head(bits, rex)| + 6 + w.n, rest, imm, w);
    WroteIs(code, code', Head(bits, rex) + [w.c] + (rest + imm), ip, r);
  }

  // The immediate written is the one meant.
  lemma GroupValue(op: Op, bits: nat, a: OpArg, operand: OpArg, imm: seq<Byte>, n: nat)
    requires operand.IsImm() && IsWidth(bits) && Handled(op, a, operand, bits) && operand.offset < Limit(8)
        && RegImmUsed(op, bits, a, operand) == None
    requires n == RmForm(op, bits, Short(op, operand, bits)).n && imm == Le(operand.offset % Limit(n), n)
    ensures RmImmResult(op, bits, a, Number(imm), Short(op, operand, bits)) == Wanted(op, bits, true, a, operand)
  {
    Limits();
    LeNumber(operand.offset % Limit(n), n);
    if Short(op, operand, bits) { ShorteningKeepsValue(op, operand, bits); } else { ImmIs(op, bits, operand, n); }
  }

  method WriteRegImm(emit: XEmitter, a: OpArg, form: Written, v: nat, bits: nat)
    modifies emit
    ensures emit.code
        == old(emit.code) + (Head(bits, RexFor(a, bits, bits, 0)) + [form.c] + Le(v % Limit(form.n), form.n))
  {
    WriteHead(emit, a, bits, 0);
    emit.Write8(form.c);
    emit.WriteLe(v % Limit(form.n), form.n);
  }

  method WriteGroup(emit: XEmitter, a: OpArg, ext: nat, form: Written, v: nat, bits: nat)
    returns (ghost rest: seq<Byte>)
    requires IsOperand(a)
    modifies emit
    ensures var head := Head(bits, RexFor(a, bits, bits, 0));
      && emit.code == old(emit.code) + (head + [form.c] + (rest + Le(v % Limit(form.n), form.n)))
      && (a.scale == SCALE_RIP ==> |rest| == 5) && ReadsAs(rest, a, ext, old(emit.GetCodePtr()) + |head| + 6 + form.n)
      && rest != [] && rest[0] / 64 == ModOf(a)
  {
    WriteHead(emit, a, bits, 0);
    emit.Write8(form.c);
    rest := emit.WriteRest(a, form.n, ext);
    emit.WriteLe(v % Limit(form.n), form.n);
  }

  // And with an immediate.
  method WriteImmediateOp(emit: XEmitter, a: OpArg, op: Op, operand: OpArg, bits: nat)
    requires operand.IsImm() && CanWrite(op, bits, true, a, operand, emit.GetCodePtr())
    modifies emit
    ensures Wrote(old(emit.code), emit.code, old(emit.GetCodePtr()), Wanted(op, bits, true, a, operand)) == true
    ensures a.scale != SCALE_NONE ==> HasMode(emit.code[|old(emit.code)|..], 1, ModOf(a))
    ensures Wanted(op, bits, true, a, operand).None? ==> HasOpcode(emit.code[|old(emit.code)|..], 0xCC)
  {
    ghost var code, ip, rex := emit.code, emit.GetCodePtr(), RexFor(a, bits, bits, 0);
    var inOpcode, form := ChooseForm(a, op, operand, bits);
    if inOpcode {
      WriteRegImm(emit, a, form, operand.offset, bits);
      RegImmWritten(op, bits, a, operand, form, ip, rex, code, emit.code);
    } else {
      ghost var rest := WriteGroup(emit, a, Def(op).ext, form, operand.offset, bits);
      GroupWritten(op, bits, a, operand, form, ip, rex, rest, code, emit.code);
    }
  }

  // XEmitter::WriteNormalOp: the operation on a1 and a2.
  method WriteNormalOp(emit: XEmitter, bits: nat, op: Op, a1: OpArg, a2: OpArg)
    requires !a1.IsImm() && (a2.IsImm() || a1.IsSimpleReg() || a2.IsSimpleReg())
    requires if a2.IsImm() || !a1.IsSimpleReg() then CanWrite(op, bits, true, a1, a2, emit.GetCodePtr())
             else CanWrite(op, bits, false, a2, a1, emit.GetCodePtr())
    modifies emit
    ensures Wrote(old(emit.code), emit.code, old(emit.GetCodePtr()), Asked(op, bits, a1, a2)) == true
    ensures !a1.IsSimpleReg() ==> HasMode(emit.code[|old(emit.code)|..], 1, ModOf(a1))
    ensures !a2.IsSimpleReg() && !a2.IsImm() ==> HasMode(emit.code[|old(emit.code)|..], 1, ModOf(a2))
    ensures Asked(op, bits, a1, a2).None? ==> HasOpcode(emit.code[|old(emit.code)|..], 0xCC)
  {
    if a2.IsImm() {
      WriteImmediateOp(emit, a1, op, a2, bits);
    } else if a1.IsSimpleReg() {
      WriteWithRegister(emit, a2, false, op, a1, bits);
    } else {
      WriteWithRegister(emit, a1, true, op, a2, bits);
    }
  }

  method WriteWithRegister(emit: XEmitter, a: OpArg, toRM: bool, op: Op, operand: OpArg, bits: nat)
    requires !operand.IsImm() && CanWrite(op, bits, toRM, a, operand, emit.GetCodePtr())
    modifies emit
    ensures Wrote(old(emit.code), emit.code, old(emit.GetCodePtr()), Wanted(op, bits, toRM, a, operand)) == true
    ensures HasMode(emit.code[|old(emit.code)|..], 1, ModOf(a))
  {
    ghost var code, ip, r := emit.code, emit.GetCodePtr(), operand.offsetOrBaseReg;
    ghost var rest := WriteRegisterOp(emit, a, toRM, op, operand.offsetOrBaseReg, bits);
    RegisterWritten(op, bits, toRM, a, r, ip, RexFor(a, bits, bits, r), rest, code, emit.code);
  }

  // The instruction asked for, the operands of TEST and XCHG in the order of their encoding; None
  // for an immediate the operation has no form for.
  function Asked(op: Op, bits: nat, a1: OpArg, a2: OpArg): Option<Instruction> {
    if a2.IsImm() then Wanted(op, bits, true, a1, a2)
    else if a1.IsSimpleReg() && Symmetric(op) then Some(Instruction(op, bits, Seen(a2), Seen(a1)))
    else Some(Instruction(op, bits, Seen(a1), Seen(a2)))
  }

  // An immediate gets written except where the table has no form for it: any immediate of XCHG,
  // and an 8-bit immediate for a wider MOV or TEST, where the code writes a breakpoint.
  lemma FormExists(op: Op, bits: nat, a: OpArg, operand: OpArg)
    requires operand.IsImm() && IsWidth(bits) && Handled(op, a, operand, bits)
    ensures Wanted(op, bits, true, a, operand).Some? <==>
            op != XCHG && !(operand.scale == SCALE_IMM8 && bits != 8 && (op == MOV || op == TEST))
    ensures Wanted(op, bits, true, a, operand).None? <==> RmForm(op, bits, Short(op, operand, bits)).c == 0xCC
  {}

  // MOV of the byte 5 to a 32-bit operand at [RAX].
  lemma ByteForWiderMov()
    ensures var a, v := OpArg(0, SCALE_ATREG, 0, 0), OpArg(5, SCALE_IMM8, 0, 0);
      Wanted(MOV, 32, true, a, v) == None && RmForm(MOV, 32, Short(MOV, v, 32)).c == 0xCC
  {}
}
