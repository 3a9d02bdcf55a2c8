/** OpArg and the writers of Common/x64Emitter.cpp for 64-bit code, against X64Decoder. */
module X64Emitter {
  import opened ByteOrder
  import opened X64Decoder

  const SCALE_NONE := 0
  const SCALE_1 := 1
  const SCALE_2 := 2
  const SCALE_4 := 4
  const SCALE_8 := 8
  const SCALE_ATREG := 16
  const SCALE_NOBASE_2 := 34
  const SCALE_NOBASE_4 := 36
  const SCALE_NOBASE_8 := 40
  const SCALE_IMM8 := 0xF0
  const SCALE_IMM16 := 0xF1
  const SCALE_IMM32 := 0xF2
  const SCALE_IMM64 := 0xF3
  const SCALE_RIP := 0xFF

  // offset is a u64.
  datatype OpArg = OpArg(offset: nat, scale: nat, offsetOrBaseReg: nat, indexReg: nat)
  {
    predicate IsImm() { scale == SCALE_IMM8 || scale == SCALE_IMM16 || scale == SCALE_IMM32 || scale == SCALE_IMM64 }

    predicate IsSimpleReg() { scale == SCALE_NONE }

    predicate HasIndex() {
      scale == SCALE_1 || scale == SCALE_2 || scale == SCALE_4 || scale == SCALE_8 || NoBase()
    }

    predicate NoBase() { scale == SCALE_NOBASE_2 || scale == SCALE_NOBASE_4 || scale == SCALE_NOBASE_8 }
  }

  predicate IsReg(r: nat) { r < 16 || 0x104 <= r < 0x108 }

  // The arguments that R, M, MatR, MDisp, MComplex, MRegSum and MScaled build.
  ghost predicate IsOperand(a: OpArg) {
    && a.offset < 0x1_0000_0000_0000_0000
    && (a.scale == SCALE_NONE || a.scale == SCALE_ATREG || a.scale == SCALE_RIP || a.HasIndex())
    && (if a.scale == SCALE_NONE then IsReg(a.offsetOrBaseReg) else a.offsetOrBaseReg < 16)
    && a.indexReg < 16 && (!a.HasIndex() ==> a.indexReg == 0)
    && (a.NoBase() || a.scale == SCALE_RIP ==> a.offsetOrBaseReg == 0)
  }

  // The displacement: the low 32 bits of the offset, signed.
  function Disp(a: OpArg): int { ToSigned(a.offset % 0x1_0000_0000, 32) }

  // What the argument says.
  function Meaning(a: OpArg): Operand {
    if a.scale == SCALE_NONE then Register(a.offsetOrBaseReg)
    else if a.scale == SCALE_ATREG then Memory(a.offsetOrBaseReg, -1, 1, Disp(a))
    else if a.scale == SCALE_RIP then Address(a.offset)
    else if a.NoBase() then Memory(-1, a.indexReg, a.scale - 0x20, Disp(a))
    else Memory(a.offsetOrBaseReg, a.indexReg, a.scale, Disp(a))
  }

  // RSP cannot be an index: its number in the SIB byte means that there is none.
  predicate IndexLost(a: OpArg) { a.HasIndex() && a.indexReg == 4 }

  // What a processor sees of a memory argument.
  function Seen(a: OpArg): Operand {
    if IndexLost(a) then Memory(if a.NoBase() then -1 else a.offsetOrBaseReg, -1, 1, Disp(a)) else Meaning(a)
  }

  lemma SeenIsMeant(a: OpArg)
    requires IsOperand(a)
    ensures Seen(a) == Meaning(a) <==> !IndexLost(a)
  {}

  // ------------------------------------------------------------ the bytes of an operand

  function ModRMByte(mod: nat, reg: nat, rm: nat): Byte
    requires mod < 4
  {
    mod * 64 + reg % 8 * 8 + rm % 8
  }

  function DispMode(a: OpArg): nat {
    if a.scale == SCALE_ATREG && a.offsetOrBaseReg % 8 != 4 && a.offsetOrBaseReg % 8 != 5 && Disp(a) == 0 then 0
    else if -128 <= Disp(a) <= 127 then 1
    else 2
  }

  // The mode in the ModR/M byte.
  function ModOf(a: OpArg): nat {
    if a.scale == SCALE_NONE then 3 else if a.scale == SCALE_RIP || a.NoBase() then 0 else DispMode(a)
  }

  function NeedsSib(a: OpArg): bool { a.scale != SCALE_ATREG || a.offsetOrBaseReg % 8 == 4 }

  function ScaleBits(scale: nat): nat {
    if scale == 2 || scale == 34 then 1 else if scale == 4 || scale == 36 then 2
      else if scale == 8 || scale == 40 then 3 else 0
  }

  function SibByte(a: OpArg): Byte {
    ModRMByte(ScaleBits(a.scale), if a.scale == SCALE_ATREG then 4 else a.indexReg,
      if a.NoBase() then 5 else a.offsetOrBaseReg)
  }

  function DispBytes(a: OpArg): seq<Byte> {
    if a.NoBase() || DispMode(a) == 2 then Le(a.offset % 0x1_0000_0000, 4)
    else if DispMode(a) == 1 then [a.offset % 256]
    else []
  }

  // next is where the instruction ends.
  function RestBytes(a: OpArg, reg: nat, next: nat): seq<Byte> {
    if a.scale == SCALE_NONE then [ModRMByte(3, reg, a.offsetOrBaseReg)]
    else if a.scale == SCALE_RIP then [ModRMByte(0, reg, 5)] + Le((a.offset - next) % 0x1_0000_0000, 4)
    else
      [ModRMByte(if a.NoBase() then 0 else DispMode(a), reg, if NeedsSib(a) then 4 else a.offsetOrBaseReg)]
      + (if NeedsSib(a) then [SibByte(a)] else []) + DispBytes(a)
  }

  lemma TakeLe(x: nat, n: nat, rest: seq<Byte>)
    requires x < Limit(n)
    ensures Take(Le(x, n) + rest, n) == Some((x, rest))
  {
    assert (Le(x, n) + rest)[..n] == Le(x, n) && (Le(x, n) + rest)[n..] == rest;
    LeNumber(x, n);
  }

  // ------------------------------------------------------------ the decoder undoes the bytes

  lemma ModRMFields(mod: nat, reg: nat, rm: nat)
    requires mod < 4
    ensures var b := ModRMByte(mod, reg, rm); b / 64 == mod && b / 8 % 8 == reg % 8 && b % 8 == rm % 8
  {}

  lemma LongDisp(x: nat, rest: seq<Byte>, reg: nat, base: int, index: int, scale: nat)
    requires x < 0x1_0000_0000
    ensures WithDisplacement(reg, 2, base, index, scale, Le(x, 4) + rest)
        == Some(ModRM(reg, Memory(base, index, scale, ToSigned(x, 32)), rest))
  {
    Limits();
    TakeLe(x, 4, rest);
  }

  lemma ShortDisp(d: Byte, rest: seq<Byte>, reg: nat, base: int, index: int, scale: nat)
    ensures WithDisplacement(reg, 1, base, index, scale, [d] + rest)
        == Some(ModRM(reg, Memory(base, index, scale, ToSigned(d, 8)), rest))
  {
    Limits();
    TakeLe(d, 1, rest);
    assert Le(d, 1) == [d];
  }

  lemma LowByteOf(offset: nat)
    requires -128 <= ToSigned(offset % 0x1_0000_0000, 32) <= 127
    ensures ToSigned(offset % 256, 8) == ToSigned(offset % 0x1_0000_0000, 32)
  {
    var x := offset % 0x1_0000_0000;
    assert offset % 256 == x % 256;
  }

  // The displacement of the mode chosen, in front of anything.
  lemma DispDecodes(a: OpArg, rest: seq<Byte>, reg: nat, base: int, index: int, scale: nat)
    requires a.scale != SCALE_NONE && a.scale != SCALE_RIP
    ensures WithDisplacement(reg, if a.NoBase() then 2 else DispMode(a), base, index, scale, DispBytes(a) + rest)
         == Some(ModRM(reg, Memory(base, index, scale, Disp(a)), rest))
  {
    if a.NoBase() || DispMode(a) == 2 {
      LongDisp(a.offset % 0x1_0000_0000, rest, reg, base, index, scale);
    } else if DispMode(a) == 1 {
      LowByteOf(a.offset);
      ShortDisp(a.offset % 256, rest, reg, base, index, scale);
    } else {
      assert [] + rest == rest;
    }
  }

  lemma PlainDecodes(mod: nat, reg: nat, rm: nat, bits: nat, rex: Rex, tail: seq<Byte>)
    requires mod < 3 && rm < 16 && rm % 8 != 4 && !(rm % 8 == 5 && mod == 0) && rex.b == (rm >= 8)
    ensures DecodeModRM([ModRMByte(mod, reg, rm)] + tail, bits, rex)
         == WithDisplacement(Extend(reg % 8, rex.r), mod, rm, -1, 1, tail)
  {
    ModRMFields(mod, reg, rm);
    assert ([ModRMByte(mod, reg, rm)] + tail)[1..] == tail;
  }

  lemma SibFollows(mod: nat, reg: nat, sib: Byte, bits: nat, rex: Rex, tail: seq<Byte>)
    requires mod < 3
    ensures DecodeModRM([ModRMByte(mod, reg, 4)] + [sib] + tail, bits, rex)
         == WithSib(Extend(reg % 8, rex.r), mod, sib, tail, rex)
  {
    ModRMFields(mod, reg, 4);
    assert ([ModRMByte(mod, reg, 4)] + [sib] + tail)[2..] == tail;
  }

  lemma SibFields(reg: nat, mod: nat, ss: nat, index: nat, base: nat, rex: Rex, s: seq<Byte>)
    requires ss < 4 && index < 16 && base < 16 && rex.x == (index >= 8) && rex.b == (base >= 8)
    ensures WithSib(reg, mod, ModRMByte(ss, index, base), s, rex)
         == var none := base % 8 == 5 && mod == 0;
            WithDisplacement(reg, if none then 2 else mod, if none then -1 else base,
              if index == 4 then -1 else index,
              if index == 4 || ss == 0 then 1 else if ss == 1 then 2 else if ss == 2 then 4 else 8, s)
  {
    ModRMFields(ss, index, base);
  }

  // Base registers with and without SIB, with and without index.
  lemma MemoryDecodes(a: OpArg, reg: nat, bits: nat, rex: Rex, rest: seq<Byte>)
    requires IsOperand(a) && a.scale != SCALE_NONE && a.scale != SCALE_RIP
    requires rex.b == (a.offsetOrBaseReg >= 8) && rex.x == (a.indexReg >= 8)
    ensures DecodeModRM(RestBytes(a, reg, 0) + rest, bits, rex) == Some(ModRM(Extend(reg % 8, rex.r), Seen(a), rest))
  {
    if NeedsSib(a) {
      var sib, disp := SibByte(a), DispBytes(a);
      RestWithSib(a, reg, rest, sib, disp);
      SibFollows(ModOf(a), reg, sib, bits, rex, disp + rest);
      SibDecodes(a, Extend(reg % 8, rex.r), rex, rest);
    } else {
      var disp := DispBytes(a);
      RestWithoutSib(a, reg, rest, disp);
      PlainDecodes(ModOf(a), reg, a.offsetOrBaseReg, bits, rex, disp + rest);
      DispDecodes(a, rest, Extend(reg % 8, rex.r), a.offsetOrBaseReg, -1, 1);
    }
  }

  lemma RestWithSib(a: OpArg, reg: nat, rest: seq<Byte>, sib: Byte, disp: seq<Byte>)
    requires a.scale != SCALE_NONE && a.scale != SCALE_RIP && NeedsSib(a) && sib == SibByte(a) && disp == DispBytes(a)
    ensures RestBytes(a, reg, 0) + rest == [ModRMByte(ModOf(a), reg, 4)] + [sib] + (disp + rest)
  {}

  lemma RestWithoutSib(a: OpArg, reg: nat, rest: seq<Byte>, disp: seq<Byte>)
    requires a.scale != SCALE_NONE && a.scale != SCALE_RIP && !NeedsSib(a) && disp == DispBytes(a)
    ensures RestBytes(a, reg, 0) + rest == [ModRMByte(ModOf(a), reg, a.offsetOrBaseReg)] + (disp + rest)
  {}

  lemma SibDecodes(a: OpArg, reg: nat, rex: Rex, rest: seq<Byte>)
    requires IsOperand(a) && a.scale != SCALE_NONE && a.scale != SCALE_RIP && NeedsSib(a)
    requires rex.b == (a.offsetOrBaseReg >= 8) && rex.x == (a.indexReg >= 8)
    ensures WithSib(reg, ModOf(a), SibByte(a), DispBytes(a) + rest, rex) == Some(ModRM(reg, Seen(a), rest))
  {
    var ss, index, base := ScaleBits(a.scale), if a.scale == SCALE_ATREG then 4 else a.indexReg,
      if a.NoBase() then 5 else a.offsetOrBaseReg;
    SibFields(reg, ModOf(a), ss, index, base, rex, DispBytes(a) + rest);
    var scale := if index == 4 || ss == 0 then 1 else if ss == 1 then 2 else if ss == 2 then 4 else 8;
    DispDecodes(a, rest, reg, if a.NoBase() then -1 else base, if index == 4 then -1 else index, scale);
  }

  lemma RegisterDecodes(a: OpArg, reg: nat, bits: nat, rex: Rex, rest: seq<Byte>, next: nat)
    requires IsOperand(a) && a.scale == SCALE_NONE && rex.b == (8 <= a.offsetOrBaseReg < 16)
        && Reaches(a.offsetOrBaseReg, bits, rex)
    ensures DecodeModRM(RestBytes(a, reg, next) + rest, bits, rex)
         == Some(ModRM(Extend(reg % 8, rex.r), Register(a.offsetOrBaseReg), rest))
  {
    ModRMFields(3, reg, a.offsetOrBaseReg);
    assert (RestBytes(a, reg, next) + rest)[1..] == rest;
  }

  lemma RipDecodes(a: OpArg, reg: nat, bits: nat, rex: Rex, rest: seq<Byte>, next: nat)
    requires IsOperand(a) && a.scale == SCALE_RIP && InReach(a, next)
    ensures var m := DecodeModRM(RestBytes(a, reg, next) + rest, bits, rex);
      m.Some? && m.value.reg == Extend(reg % 8, rex.r) && m.value.rest == rest
        && Resolve(m.value.rm, next) == Address(a.offset)
  {
    var d := (a.offset - next) % 0x1_0000_0000;
    ModRMFields(0, reg, 5);
    Limits();
    TakeLe(d, 4, rest);
    assert (RestBytes(a, reg, next) + rest)[1..] == Le(d, 4) + rest;
    assert ToSigned(d, 32) == a.offset - next;
  }

  // The signed 32-bit distance reaches the address.
  predicate InReach(a: OpArg, next: nat) { -0x8000_0000 <= a.offset - next < 0x8000_0000 }

  // The register can be named with this REX: the high bytes only without, SPL, BPL, SIL and DIL
  // only with one.
  predicate Reaches(r: nat, bits: nat, rex: Rex) {
    if r >= 0x100 then bits == 8 && !rex.present else bits == 8 && 4 <= r < 8 ==> rex.present
  }

  // Any operand.  `at` is where the writer believed the instruction to end; it matters only for
  // an operand relative to that.
  lemma RestDecodes(a: OpArg, reg: nat, bits: nat, rex: Rex, rest: seq<Byte>, at: nat, next: nat)
    requires IsOperand(a) && rex.b == (8 <= a.offsetOrBaseReg < 16) && rex.x == (a.indexReg >= 8)
    requires a.scale == SCALE_NONE ==> Reaches(a.offsetOrBaseReg, bits, rex)
    requires a.scale == SCALE_RIP ==> at == next && InReach(a, next)
    ensures var m := DecodeModRM(RestBytes(a, reg, at) + rest, bits, rex);
      m.Some? && m.value.reg == Extend(reg % 8, rex.r) && m.value.rest == rest && Resolve(m.value.rm, next) == Seen(a)
  {
    if a.scale == SCALE_NONE {
      RegisterDecodes(a, reg, bits, rex, rest, at);
    } else if a.scale == SCALE_RIP {
      RipDecodes(a, reg, bits, rex, rest, next);
    } else {
      MemoryDecodes(a, reg, bits, rex, rest);
      assert RestBytes(a, reg, at) == RestBytes(a, reg, 0);
    }
  }

  // Wherever the bytes stand, they are read as the register `reg` and the operand a, in front of
  // anything; `at` is the end of the instruction as the writer believed.
  ghost predicate ReadsAs(rest: seq<Byte>, a: OpArg, reg: nat, at: nat) {
    forall tail: seq<Byte>, bits: nat, rex: Rex, next: nat :: Admits(a, bits, rex, at, next) ==>
      Reads(rest, tail, bits, rex, a, reg, next)
  }

  predicate Reads(rest: seq<Byte>, tail: seq<Byte>, bits: nat, rex: Rex, a: OpArg, reg: nat, next: nat) {
    var m := DecodeModRM(rest + tail, bits, rex);
    m.Some? && m.value.reg == Extend(reg % 8, rex.r) && m.value.rest == tail && Resolve(m.value.rm, next) == Seen(a)
  }

  predicate Admits(a: OpArg, bits: nat, rex: Rex, at: nat, next: nat) {
    && rex.b == (8 <= a.offsetOrBaseReg < 16) && rex.x == (a.indexReg >= 8)
    && (a.scale == SCALE_NONE ==> Reaches(a.offsetOrBaseReg, bits, rex))
    && (a.scale == SCALE_RIP ==> at == next && InReach(a, next))
  }

  lemma RestReadsAs(a: OpArg, reg: nat, at: nat)
    requires IsOperand(a)
    ensures ReadsAs(RestBytes(a, reg, at), a, reg, at)
    ensures a.scale == SCALE_RIP ==> |RestBytes(a, reg, at)| == 5
  {
    forall tail: seq<Byte>, bits: nat, rex: Rex, next: nat | Admits(a, bits, rex, at, next)
      ensures Reads(RestBytes(a, reg, at), tail, bits, rex, a, reg, next)
    {
      RestDecodes(a, reg, bits, rex, tail, at, next);
    }
  }

  lemma RestMode(a: OpArg, reg: nat, at: nat)
    ensures RestBytes(a, reg, at) != [] && RestBytes(a, reg, at)[0] / 64 == ModOf(a)
  {}

  // ------------------------------------------------------------ effective addresses

  function ValueOf(regs: seq<int>, r: int): int { if 0 <= r < |regs| then regs[r] else 0 }

  const WORD64 := 0x1_0000_0000_0000_0000

  function EffectiveAddress(o: Operand, regs: seq<int>): int {
    if o.Memory? then (ValueOf(regs, o.base) + ValueOf(regs, o.index) * o.scale + o.disp) % WORD64
      else if o.Address? then o.target % WORD64 else 0
  }

  // The address the processor computes is the intended one; with RSP as index, only by chance.
  lemma AddressIsIntended(a: OpArg, regs: seq<int>)
    requires IsOperand(a) && |regs| == 16
    ensures EffectiveAddress(Seen(a), regs) == EffectiveAddress(Meaning(a), regs) <==>
            !IndexLost(a) || regs[4] * Meaning(a).scale % WORD64 == 0
  {
    if IndexLost(a) {
      var o := Seen(a);
      AddsNothing(ValueOf(regs, o.base) + o.disp, regs[4] * Meaning(a).scale);
    }
  }

  lemma AddsNothing(x: int, y: int)
    ensures (x + y) % WORD64 == x % WORD64 <==> y % WORD64 == 0
  {}

  // [RAX + RSP * 2] is read as [RAX].
  lemma StackIndexIsLost()
    ensures var a := OpArg(0, SCALE_2, 0, 4); Meaning(a) == Memory(0, 4, 2, 0) && Seen(a) == Memory(0, -1, 1, 0)
  {}

  // ------------------------------------------------------------ the emitter

  // Bit 2 set, bits 3 and 8 clear: SPL, BPL, SIL or DIL as a byte register.
  predicate LowByte(r: nat) { r / 4 % 2 == 1 && r / 8 % 2 == 0 && r / 0x100 % 2 == 0 }

  // The prefix WriteRex decides on.
  function RexFor(a: OpArg, opBits: nat, bits: nat, customOp: nat): Rex {
    var w, r, x, b := opBits == 64, customOp / 8 % 2 == 1, a.indexReg / 8 % 2 == 1, a.offsetOrBaseReg / 8 % 2 == 1;
    Rex(w || r || x || b || (a.scale == SCALE_NONE && bits == 8 && LowByte(a.offsetOrBaseReg))
      || (opBits == 8 && LowByte(customOp)), w, r, x, b)
  }

  function RexByte(rex: Rex): Byte {
    0x40 + (if rex.w then 8 else 0) + (if rex.r then 4 else 0) + (if rex.x then 2 else 0) + if rex.b then 1 else 0
  }

  function RexBytes(rex: Rex): seq<Byte> { if rex.present then [RexByte(rex)] else [] }

  class XEmitter {
    const start: nat
    var code: seq<Byte>

    constructor (start: nat)
      ensures this.start == start && code == []
    {
      this.start := start;
      code := [];
    }

    function GetCodePtr(): nat
      reads this
    {
      start + |code|
    }

    method Write8(b: Byte)
      modifies this
      ensures code == old(code) + [b]
    {
      code := code + [b];
    }

    method WriteLe(x: nat, n: nat)
      modifies this
      ensures code == old(code) + Le(x, n)
    {
      code := code + Le(x, n);
    }

    method WriteModRM(mod: nat, reg: nat, rm: nat)
      requires mod < 4
      modifies this
      ensures code == old(code) + [ModRMByte(mod, reg, rm)]
    {
      Write8(ModRMByte(mod, reg, rm));
    }

    // OpArg::WriteRex.
    method WriteRex(a: OpArg, opBits: nat, bits: nat, customOp: nat)
      modifies this
      ensures code == old(code) + RexBytes(RexFor(a, opBits, bits, customOp))
    {
      var op := 0x40;
      if opBits == 64 { op := op + 8; }
      if customOp / 8 % 2 == 1 { op := op + 4; }
      if a.indexReg / 8 % 2 == 1 { op := op + 2; }
      if a.offsetOrBaseReg / 8 % 2 == 1 { op := op + 1; }
      if op != 0x40 || (a.scale == SCALE_NONE && bits == 8 && LowByte(a.offsetOrBaseReg))
        || (opBits == 8 && LowByte(customOp)) {
        Write8(op);
      }
    }

    // OpArg::WriteRest; extraBytes is the length of the immediate to follow.
    method WriteRest(a: OpArg, extraBytes: nat, operandReg: nat) returns (ghost rest: seq<Byte>)
      requires IsOperand(a)
      modifies this
      ensures code == old(code) + rest && (a.scale == SCALE_RIP ==> |rest| == 5)
      ensures rest != [] && rest[0] / 64 == ModOf(a)
      ensures ReadsAs(rest, a, operandReg, old(GetCodePtr()) + 5 + extraBytes)
    {
      rest := RestBytes(a, operandReg, GetCodePtr() + 5 + extraBytes);
      RestReadsAs(a, operandReg, GetCodePtr() + 5 + extraBytes);
      RestMode(a, operandReg, GetCodePtr() + 5 + extraBytes);
      WriteOperand(a, extraBytes, operandReg);
    }

    method WriteOperand(a: OpArg, extraBytes: nat, operandReg: nat)
      requires IsOperand(a)
      modifies this
      ensures code == old(code) + RestBytes(a, operandReg, old(GetCodePtr()) + 5 + extraBytes)
    {
      if a.scale == SCALE_RIP {
        WriteModRM(0, operandReg, 5);
        var ripAddr := GetCodePtr() + 4 + extraBytes;
        WriteLe((a.offset - ripAddr) % 0x1_0000_0000, 4);
        return;
      }
      var mod, sib, base, ireg := 0, false, a.offsetOrBaseReg, a.indexReg;
      var ioff := Disp(a);
      if a.scale == SCALE_NONE {
        mod := 3;
      } else if a.scale == SCALE_ATREG && !(base % 8 == 4 || base % 8 == 5) {
        mod := if ioff == 0 then 0 else if ioff < -128 || ioff > 127 then 2 else 1;
      } else if a.scale >= SCALE_NOBASE_2 && a.scale <= SCALE_NOBASE_8 {
        sib, mod, base := true, 0, 5;
      } else {
        if base % 8 == 4 { sib := true; }
        if a.scale >= SCALE_1 && a.scale < SCALE_ATREG { sib := true; }
        if a.scale == SCALE_ATREG && base % 8 == 4 { sib, ireg := true, base; }
        mod := if ioff < -128 || ioff > 127 then 2 else 1;
      }
      var oreg := if sib then 4 else base;
      WriteModRM(mod, operandReg, oreg);
      if sib { Write8(ModRMByte(ScaleBits(a.scale), ireg, base)); }
      if mod == 1 {
        Write8(a.offset % 256);
      } else if mod == 2 || (a.scale >= SCALE_NOBASE_2 && a.scale <= SCALE_NOBASE_8) {
        WriteLe(a.offset % 0x1_0000_0000, 4);
      }
    }
  }
}
