/** DisassembleMov of Common/x64Analyzer.cpp, which reads back what MOV, MOVZX and MOVSX of
    Common/x64Emitter.cpp wrote, against the decoder. */
module X64Analyzer {
  import Words
  import opened ByteOrder
  import opened X64Decoder
  import opened X64Emitter
  import opened X64NormalOps

  // Memory behind the code pointer; the analyzer may look past the instruction.
  type Code = nat -> Byte

  ghost predicate Stands(mem: Code, p: nat, b: seq<Byte>) { forall k :: 0 <= k < |b| ==> mem(p + k) == b[k] }

  function Load(mem: Code, p: nat, n: nat): nat
    decreases n
  {
    if n == 0 then 0 else mem(p) + 256 * Load(mem, p + 1, n - 1)
  }

  lemma {:induction false} LoadIsNumber(mem: Code, p: nat, b: seq<Byte>)
    requires Stands(mem, p, b)
    ensures Load(mem, p, |b|) == Number(b)
    decreases |b|
  {
    if b != [] {
      assert forall k :: 0 <= k < |b| - 1 ==> mem(p + 1 + k) == b[1..][k] by {
        forall k | 0 <= k < |b| - 1 ensures mem(p + 1 + k) == b[1..][k] { assert mem(p + (k + 1)) == b[k + 1]; }
      }
      LoadIsNumber(mem, p + 1, b[1..]);
    }
  }

  lemma StandsBehind(mem: Code, p: nat, b: seq<Byte>, n: nat)
    requires Stands(mem, p, b) && n <= |b|
    ensures Stands(mem, p, b[..n]) && Stands(mem, p + n, b[n..])
  {
    forall k | 0 <= k < |b| - n ensures mem(p + n + k) == b[n..][k] { assert mem(p + (n + k)) == b[n + k]; }
  }

  // ------------------------------------------------------------ what the analyzer finds

  // Prefixes and opcode.  Of the address-size prefix only the length matters.
  datatype Fetched = Fetched(size: nat, rex: Byte, opcode: Byte, second: Byte, next: nat)

  function Fetch(mem: Code, p: nat): Fetched {
    FetchRex(mem, if mem(p) == 0x66 || mem(p) == 0x67 then p + 1 else p, if mem(p) == 0x66 then 2 else 4)
  }

  function FetchRex(mem: Code, p: nat, size: nat): Fetched {
    if mem(p) / 16 == 4 then FetchCode(mem, p + 1, if mem(p) / 8 % 2 == 1 then 8 else size, mem(p))
      else FetchCode(mem, p, size, 0)
  }

  function FetchCode(mem: Code, p: nat, size: nat, rex: Byte): Fetched {
    if mem(p) == 0x0F then Fetched(size, rex, mem(p), mem(p + 1), p + 2) else Fetched(size, rex, mem(p), 0, p + 1)
  }

  predicate HasModRM(opcode: Byte, second: Byte) {
    if opcode != 0x0F then opcode / 16 == 8 || (opcode / 8 == 0x18 && opcode / 2 % 8 != 1)
    else
      !((second / 16 == 0 && second % 16 >= 4 && second % 16 != 13 && second % 16 != 15)
        || second / 16 == 3 || second == 0x77 || second / 16 == 8 || (second / 16 == 10 && second % 8 <= 2)
          || second / 8 == 0x19)
  }

  // The operand: the reg field, the SIB byte's registers, the displacement and what is behind it.
  datatype Sib = NoSib | Sib(base: nat, index: nat)
  datatype Located = Located(reg: nat, sib: Sib, displacement: int, next: nat)

  function Locate(mem: Code, q: nat, rex: Byte): Located {
    var mod, rm := mem(q) / 64, mem(q) % 8;
    var reg := Extend(mem(q) / 8 % 8, rex / 4 % 2 == 1);
    var sib := if mod < 3 && rm == 4
      then Sib(Extend(mem(q + 1) % 8, rex % 2 == 1), Extend(mem(q + 1) / 8 % 8, rex / 2 % 2 == 1)) else NoSib;
    Behind(mem, if sib.Sib? then q + 2 else q + 1, mod, reg, sib)
  }

  function Behind(mem: Code, d: nat, mod: nat, reg: nat, sib: Sib): Located {
    var n := if mod == 1 then 1 else if mod == 2 then 4 else 0;
    Located(reg, sib, DisplacementAt(mem, d, n), d + n)
  }

  // Without a displacement four bytes are read all the same.
  function DisplacementAt(mem: Code, d: nat, n: nat): int {
    if n == 1 then ToSigned(mem(d), 8) else ToSigned(Load(mem, d, 4) % 0x1_0000_0000, 32)
  }

  // What info says afterwards; imm is the immediate, None where the field is not written.
  datatype Report = Report(size: nat, zero: bool, sign: bool, hasImm: bool, imm: Option<nat>, next: nat)

  function OnWrite(mem: Code, f: Fetched, next: nat): Option<Report> {
    if f.opcode == 0xC6 then Some(Report(f.size, false, false, true, Some(mem(next)), next + 1))
    else if f.opcode == 0xC7 then
      if f.size == 2 then Some(Report(2, false, false, true, Some(Load(mem, next, 2)), next + 2))
      else Some(Report(f.size, f.size == 8, false, f.size == 4, Some(Load(mem, next, 4)), next + 4))
    else if f.opcode == 0x89 then Some(Report(f.size, false, false, false, None, next))
    else None
  }

  function OnRead(f: Fetched, next: nat): Option<Report> {
    if f.opcode == 0x0F then
      if f.second == 0xB6 || f.second == 0xBE
        then Some(Report(1, f.second == 0xB6, f.second == 0xBE, false, None, next))
      else if f.second == 0xB7 || f.second == 0xBF
        then Some(Report(2, f.second == 0xB7, f.second == 0xBF, false, None, next))
      else None
    else if f.opcode == 0x8A && f.size == 4 then Some(Report(1, false, false, false, None, next))
    else if f.opcode == 0x8B then Some(Report(f.size, false, false, false, None, next))
    else None
  }

  function Analyze(mem: Code, p: nat, write: bool): Option<Report> {
    var f := Fetch(mem, p);
    var next := if HasModRM(f.opcode, f.second) then Locate(mem, f.next, f.rex).next else f.next;
    if write then OnWrite(mem, f, next) else OnRead(f, next)
  }

  class InstructionInfo {
    var operandSize: nat
    var instructionSize: nat
    var regOperandReg: nat
    var otherReg: nat
    var scaledReg: nat
    var zeroExtend: bool
    var signExtend: bool
    var hasImmediate: bool
    var isMemoryWrite: bool
    var immediate: nat
    var displacement: int

    constructor ()
    {
      operandSize, instructionSize, regOperandReg, otherReg, scaledReg := 0, 0, 0, 0, 0;
      zeroExtend, signExtend, hasImmediate, isMemoryWrite, immediate, displacement := false, false, false, false, 0, 0;
    }

    predicate Says(r: Report, p: nat)
      reads this
    {
      && operandSize == r.size && zeroExtend == r.zero && signExtend == r.sign && hasImmediate == r.hasImm
      && (r.imm.Some? ==> immediate == r.imm.value) && p + instructionSize == r.next
    }

    predicate Holds(l: Located)
      reads this
    {
      regOperandReg == l.reg && displacement == l.displacement
        && (l.sib.Sib? ==> otherReg == l.sib.base && scaledReg == l.sib.index)
    }
  }

  // The first half: prefixes and opcode.
  method FetchOpcode(mem: Code, codePtr: nat, info: InstructionInfo) returns (f: Fetched)
    modifies info
    ensures f == Fetch(mem, codePtr) && info.operandSize == f.size
    ensures !info.zeroExtend && !info.signExtend && !info.hasImmediate && !info.isMemoryWrite
    ensures info.immediate == old(info.immediate)
  {
    var p, rex := codePtr, 0;
    info.operandSize := 4;
    info.zeroExtend, info.signExtend, info.hasImmediate, info.isMemoryWrite := false, false, false, false;
    if mem(p) == 0x66 {
      info.operandSize := 2;
      p := p + 1;
    } else if mem(p) == 0x67 {
      p := p + 1;
    }
    if mem(p) / 16 == 4 {
      rex := mem(p);
      if rex / 8 % 2 == 1 { info.operandSize := 8; }
      p := p + 1;
    }
    var codeByte, codeByte2 := mem(p), 0;
    p := p + 1;
    if codeByte == 0x0F {
      codeByte2 := mem(p);
      p := p + 1;
    }
    f := Fetched(info.operandSize, rex, codeByte, codeByte2, p);
  }

  // The second: ModR/M, SIB and displacement.
  method FetchOperand(mem: Code, codePtr: nat, f: Fetched, info: InstructionInfo) returns (next: nat)
    requires codePtr == f.next
    modifies info`regOperandReg, info`scaledReg, info`otherReg, info`displacement
    ensures next == if HasModRM(f.opcode, f.second) then Locate(mem, f.next, f.rex).next else f.next
    ensures HasModRM(f.opcode, f.second) ==> info.Holds(Locate(mem, f.next, f.rex))
    ensures HasModRM(f.opcode, f.second) && Locate(mem, f.next, f.rex).sib.NoSib? ==>
        unchanged(info`otherReg, info`scaledReg)
  {
    var p, displacementSize := codePtr, 0;
    if HasModRM(f.opcode, f.second) {
      var modRM := mem(p);
      p := p + 1;
      var mod, rm := modRM / 64, modRM % 8;
      info.regOperandReg := modRM / 8 % 8 + if f.rex / 4 % 2 == 1 then 8 else 0;
      if mod < 3 && rm == 4 {
        var sibByte := mem(p);
        p := p + 1;
        info.scaledReg, info.otherReg := sibByte / 8 % 8, sibByte % 8;
        if f.rex / 2 % 2 == 1 { info.scaledReg := info.scaledReg + 8; }
        if f.rex % 2 == 1 { info.otherReg := info.otherReg + 8; }
      }
      if mod == 1 || mod == 2 { displacementSize := if mod == 1 then 1 else 4; }
    }
    info.displacement := DisplacementAt(mem, p, displacementSize);
    next := p + displacementSize;
  }

  // What the opcodes that write to memory do with info.
  method AnalyzeStore(mem: Code, codePtr: nat, f: Fetched, info: InstructionInfo) returns (ok: bool, next: nat)
    requires info.operandSize == f.size && !info.zeroExtend && !info.signExtend && !info.hasImmediate
    requires f.size == 2 || f.size == 4 || f.size == 8
    modifies info`zeroExtend, info`hasImmediate, info`immediate
    ensures ok == OnWrite(mem, f, codePtr).Some? && next >= codePtr
    ensures ok ==> var r := OnWrite(mem, f, codePtr).value;
      && info.operandSize == r.size && info.zeroExtend == r.zero && info.signExtend == r.sign
      && info.hasImmediate == r.hasImm && (r.imm.Some? ==> info.immediate == r.imm.value) && next == r.next
  {
    ok, next := true, codePtr;
    if f.opcode == 0xC6 {
      info.hasImmediate, info.immediate := true, mem(next);
      next := next + 1;
    } else if f.opcode == 0xC7 {
      if info.operandSize == 2 {
        info.hasImmediate, info.immediate := true, Load(mem, next, 2);
        next := next + 2;
      } else if info.operandSize == 4 {
        info.hasImmediate, info.immediate := true, Load(mem, next, 4);
        next := next + 4;
      } else if info.operandSize == 8 {
        info.zeroExtend, info.immediate := true, Load(mem, next, 4);
        next := next + 4;
      }
    } else if f.opcode != 0x89 {
      ok := false;
    }
  }

  // And those that read from it.
  method AnalyzeLoad(f: Fetched, info: InstructionInfo, ghost next: nat) returns (ok: bool)
    requires info.operandSize == f.size && !info.zeroExtend && !info.signExtend && !info.hasImmediate
    modifies info`zeroExtend, info`signExtend, info`operandSize
    ensures ok == OnRead(f, next).Some?
    ensures ok ==> var r := OnRead(f, next).value;
      && info.operandSize == r.size && info.zeroExtend == r.zero && info.signExtend == r.sign
      && info.hasImmediate == r.hasImm && r.imm.None? && next == r.next
  {
    ok := true;
    if f.opcode == 0x0F {
      if f.second == 0xB6 {
        info.zeroExtend, info.operandSize := true, 1;
      } else if f.second == 0xB7 {
        info.zeroExtend, info.operandSize := true, 2;
      } else if f.second == 0xBE {
        info.signExtend, info.operandSize := true, 1;
      } else if f.second == 0xBF {
        info.signExtend, info.operandSize := true, 2;
      } else {
        ok := false;
      }
    } else if f.opcode == 0x8A {
      if info.operandSize != 4 { ok := false; } else { info.operandSize := 1; }
    } else if f.opcode != 0x8B {
      ok := false;
    }
  }

  method DisassembleMov(mem: Code, codePtr: nat, info: InstructionInfo, accessType: nat) returns (ok: bool)
    modifies info
    ensures ok == Analyze(mem, codePtr, accessType == 1).Some?
    ensures ok ==> info.Says(Analyze(mem, codePtr, accessType == 1).value, codePtr)
    ensures var f := Fetch(mem, codePtr); HasModRM(f.opcode, f.second) ==> info.Holds(Locate(mem, f.next, f.rex))
    ensures info.isMemoryWrite == (accessType == 1)
  {
    var f := FetchOpcode(mem, codePtr, info);
    var p := FetchOperand(mem, f.next, f, info);
    if accessType == 1 {
      info.isMemoryWrite := true;
      ok, p := AnalyzeStore(mem, p, f, info);
    } else {
      ok := AnalyzeLoad(f, info, p);
    }
    if ok { info.instructionSize := p - codePtr; }
  }

  // ------------------------------------------------------------ against the decoder

  function SizeOf(p: Prefixes): nat { if p.rex.w then 8 else if p.wordSize then 2 else 4 }

  // f is these prefixes and the opcode after them, which ends before `tail`, the instruction's rest.
  ghost predicate Agrees(mem: Code, f: Fetched, p: Prefixes, tail: seq<Byte>, end: nat) {
    && f.size == SizeOf(p) && RexIs(f.rex, p.rex)
    && p.rest != [] && f.opcode == p.rest[0] && (f.opcode == 0x0F ==> |p.rest| > 1 && f.second == p.rest[1])
    && tail == p.rest[if f.opcode == 0x0F then 2 else 1..] && Stands(mem, f.next, tail) && f.next + |tail| == end
  }

  predicate RexIs(byte: Byte, rex: Rex) {
    rex.w == (byte / 8 % 2 == 1) && rex.r == (byte / 4 % 2 == 1) && rex.x == (byte / 2 % 2 == 1)
      && rex.b == (byte % 2 == 1)
  }

  // The first byte behind the prefixes is an opcode, and not half of one.
  predicate IsOpcode(s: seq<Byte>)
  {
    s != [] && s[0] != 0x66 && s[0] != 0x67 && s[0] / 16 != 4 && (s[0] == 0x0F ==> |s| > 1)
  }

  function Tail(s: seq<Byte>): seq<Byte>
    requires IsOpcode(s)
  {
    s[if s[0] == 0x0F then 2 else 1..]
  }

  lemma CodeAgrees(mem: Code, at: nat, p: Prefixes, rex: Byte)
    requires IsOpcode(p.rest) && Stands(mem, at, p.rest) && RexIs(rex, p.rex)
    ensures Agrees(mem, FetchCode(mem, at, SizeOf(p), rex), p, Tail(p.rest), at + |p.rest|) == true
  {
    assert mem(at + 0) == p.rest[0];
    if p.rest[0] == 0x0F { assert mem(at + 1) == p.rest[1]; }
    StandsBehind(mem, at, p.rest, if p.rest[0] == 0x0F then 2 else 1);
  }

  lemma RexAgrees(mem: Code, at: nat, word: bool, s: seq<Byte>)
    requires Stands(mem, at, s) && IsOpcode(TakeRex(word, s).rest)
    ensures var p := TakeRex(word, s);
      Agrees(mem, FetchRex(mem, at, if word then 2 else 4), p, Tail(p.rest), at + |s|) == true
  {
    var p := TakeRex(word, s);
    assert s != [];
    assert mem(at + 0) == s[0];
    if mem(at) / 16 == 4 {
      StandsBehind(mem, at, s, 1);
      CodeAgrees(mem, at + 1, p, mem(at));
    } else {
      CodeAgrees(mem, at, p, 0);
    }
  }

  lemma FetchAgrees(mem: Code, at: nat, b: seq<Byte>)
    requires Stands(mem, at, b) && IsOpcode(TakePrefixes(b).rest)
    ensures var p := TakePrefixes(b);
      Agrees(mem, Fetch(mem, at), p, Tail(p.rest), at + |b|) == true
  {
    assert b != [];
    assert mem(at + 0) == b[0];
    if b[0] == 0x66 {
      StandsBehind(mem, at, b, 1);
      RexAgrees(mem, at + 1, true, b[1..]);
    } else {
      RexAgrees(mem, at, false, b);
    }
  }

  function Length(mod: nat): nat { if mod == 0 then 0 else if mod == 1 then 1 else 4 }

  lemma DispAgrees(mem: Code, d: nat, s: seq<Byte>, reg: nat, mod: nat, base: int, index: int, scale: nat, m: ModRM)
    requires Stands(mem, d, s) && WithDisplacement(reg, mod, base, index, scale, s) == Some(m)
    ensures var n := Length(mod);
      && |m.rest| == |s| - n && Stands(mem, d + n, m.rest)
      && m.reg == reg && m.rm == Memory(base, index, scale, if mod == 0 then 0 else DisplacementAt(mem, d, n))
  {
    var n := Length(mod);
    StandsBehind(mem, d, s, n);
    if n == 0 {
      assert s[0..] == s;
    } else {
      LoadIsNumber(mem, d, s[..n]);
      assert n == 1 ==> mem(d + 0) == s[0] && s[..1][1..] == [];
    }
  }

  // An operand in memory; a relative one lacks a base register, too.
  predicate InMemoryOperand(o: Operand) { o.Memory? || o.Address? }

  predicate NoBaseRegister(o: Operand) { o.Address? || (o.Memory? && o.base < 0) }

  // The displacement, of a relative operand as the instruction has it.
  function DisplacementOf(o: Operand): int { if o.Memory? then o.disp else if o.Address? then o.target else 0 }

  // There are displacement bytes, the ModR/M byte being at q, or what is read in their place, the
  // four bytes behind the operand, is 0.
  predicate ShowsDisplacement(mem: Code, q: nat, l: Located, o: Operand) {
    mem(q) / 64 != 0 || NoBaseRegister(o) || Load(mem, l.next, 4) == 0
  }

  // The reg field, the registers of the SIB byte, and exactly when the displacement is right.
  predicate Placed(mem: Code, q: nat, l: Located, reg: nat, o: Operand, disp: int) {
    && l.reg == reg && InMemoryOperand(o)
    && (l.displacement == disp <==> ShowsDisplacement(mem, q, l, o))
    && match l.sib
       case NoSib => o.Address? || o.index == -1
       case Sib(base, index) =>
         o.Memory? && (o.base >= 0 ==> o.base == base) && index == if o.index >= 0 then o.index else 4
  }

  // Without a base register the displacement is read but not counted.
  function Uncounted(o: Operand): nat { if NoBaseRegister(o) then 4 else 0 }

  ghost predicate FindsOperand(mem: Code, q: nat, l: Located, m: ModRM, end: nat) {
    && Placed(mem, q, l, m.reg, m.rm, DisplacementOf(m.rm))
    && |m.rest| <= end && Stands(mem, end - |m.rest|, m.rest) && l.next + Uncounted(m.rm) == end - |m.rest|
    && (NoBaseRegister(m.rm) ==> l.displacement == ToSigned(Load(mem, l.next, 4) % 0x1_0000_0000, 32))
  }

  lemma {:induction false} LoadLimit(mem: Code, p: nat, n: nat)
    ensures Load(mem, p, n) < Limit(n)
    decreases n
  {
    if n > 0 { LoadLimit(mem, p + 1, n - 1); }
  }

  // Four bytes read as a signed number are 0 exactly when they are 0.
  lemma ZeroBytes(mem: Code, p: nat)
    ensures ToSigned(Load(mem, p, 4) % 0x1_0000_0000, 32) == 0 <==> Load(mem, p, 4) == 0
  {
    LoadLimit(mem, p, 4);
    Limits();
  }

  lemma SibPlaced(mem: Code, q: nat, d: nat, mod: nat, reg: nat, sib: Sib, m: ModRM, noBase: bool, l: Located, end: nat)
    requires sib.Sib? && mod < 3 && mod == mem(q) / 64 && m.rm.Memory? && m.reg == reg && (noBase ==> mod == 0)
    requires m.rm.base == (if noBase then -1 else sib.base) && m.rm.index == if sib.index == 4 then -1 else sib.index
    requires m.rm.disp == if noBase then DisplacementAt(mem, d, 4) else if mod == 0 then 0
        else DisplacementAt(mem, d, Length(mod))
    requires l == Behind(mem, d, mod, reg, sib)
    requires d + Length(if noBase then 2 else mod) + |m.rest| == end && Stands(mem, end - |m.rest|, m.rest)
    ensures FindsOperand(mem, q, l, m, end) == true
  {
    ZeroBytes(mem, l.next);
  }

  lemma SibAgrees(mem: Code, q: nat, s: seq<Byte>, rexByte: Byte, rex: Rex, m: ModRM, l: Located)
    requires Stands(mem, q, s) && RexIs(rexByte, rex) && |s| >= 2 && s[0] / 64 < 3 && s[0] % 8 == 4
    requires WithSib(Extend(s[0] / 8 % 8, rex.r), s[0] / 64, s[1], s[2..], rex) == Some(m)
    requires l == Locate(mem, q, rexByte)
    ensures |m.rest| <= |s| && FindsOperand(mem, q, l, m, q + |s|) == true
  {
    assert mem(q + 0) == s[0] && mem(q + 1) == s[1];
    StandsBehind(mem, q, s, 2);
    LocateSib(mem, q, rexByte, rex, s[0], s[1]);
    var sib := Sib(Extend(s[1] % 8, rex.b), Extend(s[1] / 8 % 8, rex.x));
    SibRest(mem, q, q + 2, s[2..], Extend(s[0] / 8 % 8, rex.r), s[0] / 64, s[1], rex, m, l, sib, q + |s|);
  }

  // What is behind the SIB byte.
  lemma SibRest(mem: Code, q: nat, d: nat, s: seq<Byte>, reg: nat, mod: nat, sibByte: Byte, rex: Rex, m: ModRM,
                l: Located, sib: Sib, end: nat)
    requires Stands(mem, d, s) && mod < 3 && mod == mem(q) / 64 && WithSib(reg, mod, sibByte, s, rex) == Some(m)
        && end == d + |s|
    requires sib == Sib(Extend(sibByte % 8, rex.b), Extend(sibByte / 8 % 8, rex.x))
    requires l == Behind(mem, d, mod, reg, sib)
    ensures |m.rest| <= |s| && FindsOperand(mem, q, l, m, end) == true
  {
    var index, ss := sib.index, sibByte / 64;
    var scale := if index == 4 || ss == 0 then 1 else if ss == 1 then 2 else if ss == 2 then 4 else 8;
    var noBase := sibByte % 8 == 5 && mod == 0;
    var base, index' := if noBase then -1 else sib.base, if index == 4 then -1 else index;
    SibForm(reg, mod, sibByte, s, rex, m, noBase, base, index', scale);
    DispAgrees(mem, d, s, reg, if noBase then 2 else mod, base, index', scale, m);
    SibPlaced(mem, q, d, mod, reg, sib, m, noBase, l, end);
  }

  lemma SibForm(reg: nat, mod: nat, sib: Byte, s: seq<Byte>, rex: Rex, m: ModRM, noBase: bool, base: int, index: int,
                scale: nat)
    requires WithSib(reg, mod, sib, s, rex) == Some(m) && noBase == (sib % 8 == 5 && mod == 0)
    requires base == (if noBase then -1 else Extend(sib % 8, rex.b))
    requires index == if Extend(sib / 8 % 8, rex.x) == 4 then -1 else Extend(sib / 8 % 8, rex.x)
    requires scale == if index < 0 || sib / 64 == 0 then 1 else if sib / 64 == 1 then 2 else if sib / 64 == 2 then 4
        else 8
    ensures WithDisplacement(reg, if noBase then 2 else mod, base, index, scale, s) == Some(m)
  {}

  lemma LocateSib(mem: Code, q: nat, rexByte: Byte, rex: Rex, modRM: Byte, sib: Byte)
    requires mem(q) == modRM && mem(q + 1) == sib && RexIs(rexByte, rex) && modRM / 64 < 3 && modRM % 8 == 4
    ensures Locate(mem, q, rexByte)
         == Behind(mem, q + 2, modRM / 64, Extend(modRM / 8 % 8, rex.r),
           Sib(Extend(sib % 8, rex.b), Extend(sib / 8 % 8, rex.x)))
  {}

  lemma PlainAgrees(mem: Code, q: nat, s: seq<Byte>, rexByte: Byte, rex: Rex, m: ModRM, l: Located)
    requires Stands(mem, q, s) && RexIs(rexByte, rex) && s != [] && l == Locate(mem, q, rexByte)
    requires s[0] / 64 < 3 && s[0] % 8 != 4
    requires WithDisplacement(Extend(s[0] / 8 % 8, rex.r), s[0] / 64, Extend(s[0] % 8, rex.b), -1, 1, s[1..]) == Some(m)
    ensures |m.rest| <= |s| && FindsOperand(mem, q, l, m, q + |s|) == true
  {
    assert mem(q + 0) == s[0];
    StandsBehind(mem, q, s, 1);
    DispAgrees(mem, q + 1, s[1..], Extend(s[0] / 8 % 8, rex.r), s[0] / 64, Extend(s[0] % 8, rex.b), -1, 1, m);
    ZeroBytes(mem, l.next);
  }

  // The operand relative to the instruction pointer.
  predicate IsRelative(modRM: Byte) { modRM / 64 == 0 && modRM % 8 == 5 }

  lemma RelativeAgrees(mem: Code, q: nat, s: seq<Byte>, rexByte: Byte, rex: Rex, m: ModRM, l: Located)
    requires Stands(mem, q, s) && RexIs(rexByte, rex) && |s| >= 5 && l == Locate(mem, q, rexByte) && IsRelative(s[0])
    requires m.reg == Extend(s[0] / 8 % 8, rex.r) && m.rest == s[5..]
    requires m.rm == Address(ToSigned(Number(s[1..5]) % 0x1_0000_0000, 32))
    ensures |m.rest| <= |s| && FindsOperand(mem, q, l, m, q + |s|) == true
  {
    assert mem(q + 0) == s[0];
    StandsBehind(mem, q, s, 1);
    StandsBehind(mem, q, s, 5);
    StandsBehind(mem, q + 1, s[1..], 4);
    assert s[1..][..4] == s[1..5];
    LoadIsNumber(mem, q + 1, s[1..5]);
  }

  lemma MemoryForm(s: seq<Byte>, bits: nat, rex: Rex, m: ModRM)
    requires DecodeModRM(s, bits, rex) == Some(m) && InMemoryOperand(m.rm)
    ensures s != [] && s[0] / 64 < 3 && m.reg < 16 && (s[0] % 8 == 4 ==> |s| >= 2)
    ensures s[0] % 8 == 4 ==> WithSib(Extend(s[0] / 8 % 8, rex.r), s[0] / 64, s[1], s[2..], rex) == Some(m)
    ensures IsRelative(s[0]) ==>
      && |s| >= 5 && m.reg == Extend(s[0] / 8 % 8, rex.r) && m.rest == s[5..]
      && m.rm == Address(ToSigned(Number(s[1..5]) % 0x1_0000_0000, 32))
    ensures s[0] % 8 != 4 && !IsRelative(s[0]) ==>
      WithDisplacement(Extend(s[0] / 8 % 8, rex.r), s[0] / 64, Extend(s[0] % 8, rex.b), -1, 1, s[1..]) == Some(m)
  {
    if IsRelative(s[0]) && |s| >= 5 { assert s[1..][..4] == s[1..5] && s[1..][4..] == s[5..]; }
  }

  lemma LocateAgrees(mem: Code, q: nat, s: seq<Byte>, bits: nat, rexByte: Byte, rex: Rex, m: ModRM, l: Located)
    requires Stands(mem, q, s) && RexIs(rexByte, rex) && DecodeModRM(s, bits, rex) == Some(m) && InMemoryOperand(m.rm)
    requires l == Locate(mem, q, rexByte)
    ensures |m.rest| <= |s| && FindsOperand(mem, q, l, m, q + |s|) == true && m.reg < 16
  {
    MemoryForm(s, bits, rex, m);
    if s[0] % 8 == 4 {
      SibAgrees(mem, q, s, rexByte, rex, m, l);
    } else if IsRelative(s[0]) {
      RelativeAgrees(mem, q, s, rexByte, rex, m, l);
    } else {
      PlainAgrees(mem, q, s, rexByte, rex, m, l);
    }
  }

  // ------------------------------------------------------------ moves

  // p.rest is a MOV of this opcode whose memory operand is m.rm, up to next.
  predicate IsMov(p: Prefixes, m: ModRM, i: Instruction, next: nat) {
    var rm, bits := Resolve(m.rm, next), 8 * SizeOf(p);
    && IsOpcode(p.rest) && InMemoryOperand(m.rm)
    && match p.rest[0]
       case 0x88 => i == Instruction(MOV, 8, rm, RegisterOf(m.reg, 8, p.rex)) && m.rest == []
       case 0x89 => i == Instruction(MOV, bits, rm, RegisterOf(m.reg, bits, p.rex)) && m.rest == []
       case 0x8A => i == Instruction(MOV, 8, RegisterOf(m.reg, 8, p.rex), rm) && m.rest == []
       case 0x8B => i == Instruction(MOV, bits, RegisterOf(m.reg, bits, p.rex), rm) && m.rest == []
       case 0xC6 => i == Instruction(MOV, 8, rm, Immediate(Number(m.rest))) && |m.rest| == 1
       case 0xC7 =>
         var n := if SizeOf(p) == 2 then 2 else 4;
         i == Instruction(MOV, bits, rm, Immediate(SignExtend(Number(m.rest), n, bits))) && |m.rest| == n
       case _ => false
  }

  predicate TouchesMemory(i: Instruction) { i.op == MOV && (InMemoryOperand(i.src) || InMemoryOperand(i.dst)) }

  // The opcodes of MOV with an r/m operand.
  lemma MovOpcodes(c: Byte, bits: nat, form: Form)
    requires form == Classify(c, bits)
    ensures form.RmRegForm? && form.op == MOV ==>
      0x88 <= c < 0x8C && form == RmRegForm(MOV, if c % 2 == 0 then 8 else bits, c < 0x8A)
    ensures form.RmImmForm? && form.group.Some? && form.group.value == MOV ==>
      (c == 0xC6 || c == 0xC7) && form == if c == 0xC6 then RmImmForm(Some(MOV), 8, 1)
                                          else RmImmForm(Some(MOV), bits, if bits == 16 then 2 else 4)
  {}

  lemma MovForms(p: Prefixes, next: nat, i: Instruction) returns (m: ModRM)
    requires p.rest != [] && Perform(Classify(p.rest[0], 8 * SizeOf(p)), p.rest[1..], p.rex, next) == Some(i)
        && TouchesMemory(i)
    ensures IsOpcode(p.rest) && p.rest[0] != 0x0F && HasModRM(p.rest[0], 0)
    ensures DecodeModRM(p.rest[1..], i.bits, p.rex) == Some(m) && InMemoryOperand(m.rm) && IsMov(p, m, i, next) == true
  {
    var form := Classify(p.rest[0], 8 * SizeOf(p));
    MovOpcodes(p.rest[0], 8 * SizeOf(p), form);
    m := MovPerforms(form, p.rest[1..], p.rex, next, i);
  }

  // Of a MOV with a memory operand, its parts.
  lemma MovPerforms(form: Form, s: seq<Byte>, rex: Rex, next: nat, i: Instruction) returns (m: ModRM)
    requires Perform(form, s, rex, next) == Some(i) && TouchesMemory(i)
    ensures form.RmRegForm? || form.RmImmForm?
    ensures form.RmRegForm? ==>
      && form.op == MOV && i.bits == form.bits && m.rest == []
      && var reg := RegisterOf(m.reg, form.bits, rex);
         i == if form.toRm then Instruction(MOV, form.bits, Resolve(m.rm, next), reg)
              else Instruction(MOV, form.bits, reg, Resolve(m.rm, next))
    ensures form.RmImmForm? ==>
      && form.group == Some(MOV) && |m.rest| == form.n
      && i == Instruction(MOV, form.bits, Resolve(m.rm, next), Immediate(SignExtend(Number(m.rest), form.n, form.bits)))
    ensures DecodeModRM(s, i.bits, rex) == Some(m) && InMemoryOperand(m.rm)
  {
    m := DecodeModRM(s, i.bits, rex).value;
  }

  ghost predicate Found(mem: Code, p: Prefixes, m: ModRM, i: Instruction, f: Fetched, l: Located, end: nat, next: nat) {
    && IsMov(p, m, i, next) && m.reg < 16 && f.size == SizeOf(p) && f.opcode == p.rest[0]
    && HasModRM(f.opcode, f.second) && FindsOperand(mem, f.next, l, m, end)
  }

  lemma DecodedForm(b: seq<Byte>, ip: nat, i: Instruction, p: Prefixes, next: nat)
    requires Decode(b, ip) == Some(i) && p == TakePrefixes(b) && next == ip + |b|
    ensures p.rest != [] && Perform(Classify(p.rest[0], 8 * SizeOf(p)), p.rest[1..], p.rex, next) == Some(i)
  {}

  lemma AnalyzeAt(mem: Code, at: nat, f: Fetched, l: Located)
    requires f == Fetch(mem, at) && l == Locate(mem, f.next, f.rex) && HasModRM(f.opcode, f.second)
    ensures Analyze(mem, at, false) == OnRead(f, l.next) && Analyze(mem, at, true) == OnWrite(mem, f, l.next)
  {}

  // What the analyzer finds in front of a MOV's immediate.
  lemma MovIsFound(mem: Code, at: nat, b: seq<Byte>, ip: nat, i: Instruction, end: nat, next: nat)
    returns (p: Prefixes, m: ModRM, f: Fetched, l: Located)
    requires Stands(mem, at, b) && Decode(b, ip) == Some(i) && TouchesMemory(i) && end == at + |b| && next == ip + |b|
    ensures p == TakePrefixes(b) && f == Fetch(mem, at) && l == Locate(mem, f.next, f.rex)
        && Found(mem, p, m, i, f, l, end, next) == true
    ensures HasModRM(f.opcode, f.second) && Analyze(mem, at, false) == OnRead(f, l.next)
        && Analyze(mem, at, true) == OnWrite(mem, f, l.next)
  {
    p := TakePrefixes(b);
    DecodedForm(b, ip, i, p, next);
    m, f, l := PartsAreFound(mem, at, b, p, i, end, next);
    AnalyzeAt(mem, at, f, l);
  }

  lemma PartsAreFound(mem: Code, at: nat, b: seq<Byte>, p: Prefixes, i: Instruction, end: nat, next: nat)
    returns (m: ModRM, f: Fetched, l: Located)
    requires Stands(mem, at, b) && p == TakePrefixes(b) && TouchesMemory(i) && end == at + |b|
    requires p.rest != [] && Perform(Classify(p.rest[0], 8 * SizeOf(p)), p.rest[1..], p.rex, next) == Some(i)
    ensures f == Fetch(mem, at) && l == Locate(mem, f.next, f.rex) && Found(mem, p, m, i, f, l, end, next) == true
    ensures HasModRM(f.opcode, f.second)
  {
    m := MovForms(p, next, i);
    f := Fetch(mem, at);
    l := Locate(mem, f.next, f.rex);
    FetchAgrees(mem, at, b);
    OperandIsFound(mem, p, m, i, f, l, end, next);
  }

  lemma OperandIsFound(mem: Code, p: Prefixes, m: ModRM, i: Instruction, f: Fetched, l: Located, end: nat, next: nat)
    requires IsOpcode(p.rest) && p.rest[0] != 0x0F && HasModRM(p.rest[0], f.second)
        && Agrees(mem, f, p, Tail(p.rest), end)
    requires DecodeModRM(p.rest[1..], i.bits, p.rex) == Some(m) && InMemoryOperand(m.rm)
        && IsMov(p, m, i, next) == true && l == Locate(mem, f.next, f.rex)
    ensures Found(mem, p, m, i, f, l, end, next) == true && HasModRM(f.opcode, f.second)
  {
    var s := p.rest[1..];
    LocateAgrees(mem, f.next, s, i.bits, f.rex, p.rex, m, l);
  }

  function NumberOf(o: Operand): nat { if o.Register? then o.num % 0x100 else 0 }

  // The displacement of an operand of an instruction that ends at next.
  function DisplacementIn(o: Operand, next: nat): int { if o.Address? then o.target - next else DisplacementOf(o) }

  // The report on an instruction with the memory operand o, but for the size and the immediate:
  // the length, 4 too short without a base register, the registers and the displacement.
  predicate Shown(mem: Code, q: nat, l: Located, reg: nat, o: Operand, next: nat) {
    Placed(mem, q, l, reg, o, DisplacementIn(o, next))
  }

  predicate LoadReported(r: Option<Report>, i: Instruction, size: nat, end: nat) {
    && (r.None? <==> i.bits == 8 && size != 4)
    && (r.Some? ==> var gap := Uncounted(i.src);
      end >= gap && r == Some(Report(i.bits / 8, false, false, false, None, end - gap)))
  }

  lemma LoadVerdict(mem: Code, p: Prefixes, m: ModRM, i: Instruction, f: Fetched, l: Located, end: nat, next: nat,
                    r: Option<Report>)
    requires Found(mem, p, m, i, f, l, end, next) == true && InMemoryOperand(i.src) && r == OnRead(f, l.next)
    ensures Shown(mem, f.next, l, NumberOf(i.dst), i.src, next) && LoadReported(r, i, SizeOf(p), end) == true
  {}

  // The report on the instruction b at `at`, when that is the load i, fetched from ip.
  ghost predicate ReadsLoad(mem: Code, at: nat, b: seq<Byte>, ip: nat, i: Instruction) {
    var f := Fetch(mem, at);
    && HasModRM(f.opcode, f.second)
    && Shown(mem, f.next, Locate(mem, f.next, f.rex), NumberOf(i.dst), i.src, ip + |b|)
    && LoadReported(Analyze(mem, at, false), i, SizeOf(TakePrefixes(b)), at + |b|)
  }

  // Any load the decoder knows.  It is refused exactly when it is of one byte and has an
  // operand-size prefix or REX.W.  Else size, register and SIB registers are right; the length
  // is, exactly with a base register; and the displacement, exactly if there is one or the four
  // bytes behind the operand are 0.
  lemma LoadIsReported(mem: Code, at: nat, b: seq<Byte>, ip: nat, i: Instruction)
    requires Stands(mem, at, b) && Decode(b, ip) == Some(i) && i.op == MOV && InMemoryOperand(i.src)
    ensures ReadsLoad(mem, at, b, ip, i) == true
  {
    var end, next := at + |b|, ip + |b|;
    var p, m, f, l := MovIsFound(mem, at, b, ip, i, end, next);
    LoadVerdict(mem, p, m, i, f, l, end, next, Analyze(mem, at, false));
  }

  // What is reported of a store: nothing exactly when it is of a byte register.  A one-byte
  // immediate is reported with the size of a wider operand, and a 64-bit one not as an immediate.
  // Without a base register the immediate is taken from the low bytes of the displacement.
  predicate StoreReported(r: Option<Report>, l: Located, i: Instruction, size: nat, end: nat, disp: int) {
    var gap := Uncounted(i.dst);
    && end >= gap
    && match i.src
       case Register(num) => if i.bits == 8 then r.None?
         else r == Some(Report(i.bits / 8, false, false, false, None, end - gap)) && l.reg == num
       case Immediate(v) =>
         && v >= 0
         && var n := if i.bits == 8 then 1 else if i.bits == 16 then 2 else 4;
         var imm := if gap == 0 then v % Limit(n) else disp % Limit(n);
         r == Some(if i.bits == 8 then Report(size, false, false, true, Some(imm), end - gap)
                   else Report(i.bits / 8, i.bits == 64, false, i.bits != 64, Some(imm), end - gap))
       case _ => false
  }

  lemma StoreVerdict(mem: Code, p: Prefixes, m: ModRM, i: Instruction, f: Fetched, l: Located, end: nat, next: nat,
                     r: Option<Report>)
    requires Found(mem, p, m, i, f, l, end, next) == true && InMemoryOperand(i.dst) && i.src.Register?
        && r == OnWrite(mem, f, l.next)
    ensures StoreReported(r, l, i, SizeOf(p), end, DisplacementOf(m.rm)) == true
  {}

  // The low bytes of four.
  lemma LoadLow(mem: Code, p: nat, n: nat)
    requires n == 1 || n == 2 || n == 4
    ensures Load(mem, p, n) == Load(mem, p, 4) % Limit(n)
  {
    Limits();
    LoadLimit(mem, p, 4);
    var h := Load(mem, p + 2, 2);
    assert Load(mem, p + 1, 3) == mem(p + 1) + 256 * h && Load(mem, p + 2, 0) == 0;
    assert Load(mem, p, 1) == mem(p) && Load(mem, p + 1, 1) == mem(p + 1);
    LowBytes(mem(p), mem(p + 1), h);
  }

  lemma LowBytes(a: Byte, b: Byte, h: nat)
    ensures var x := a + 256 * (b + 256 * h); x % 0x100 == a && x % 0x1_0000 == a + 256 * b
  {}

  // The bytes read as the immediate: its own, or those of the displacement.
  lemma ImmediateRead(mem: Code, l: Located, m: ModRM, q: nat, end: nat, n: nat)
    requires FindsOperand(mem, q, l, m, end) == true && (n == 1 || n == 2 || n == 4) && |m.rest| == n
    ensures Load(mem, l.next, n)
         == if Uncounted(m.rm) == 0 then Number(m.rest) else DisplacementOf(m.rm) % Limit(n)
  {
    if Uncounted(m.rm) == 0 {
      LoadIsNumber(mem, l.next, m.rest);
    } else {
      LowOfDisplacement(mem, l.next, n, DisplacementOf(m.rm));
    }
  }

  lemma LowOfDisplacement(mem: Code, p: nat, n: nat, disp: int)
    requires (n == 1 || n == 2 || n == 4) && disp == ToSigned(Load(mem, p, 4) % 0x1_0000_0000, 32)
    ensures Load(mem, p, n) == disp % Limit(n)
  {
    Limits();
    LoadLow(mem, p, n);
    LoadLimit(mem, p, 4);
    SignedLow(Load(mem, p, 4), Limit(n));
  }

  lemma SignedLow(x: nat, d: nat)
    requires x < 0x1_0000_0000 && (d == 0x100 || d == 0x1_0000 || d == 0x1_0000_0000)
    ensures ToSigned(x % 0x1_0000_0000, 32) % d == x % d
  {}

  // The low bytes of a sign-extended immediate are the immediate.
  lemma ImmediateValue(x: nat, n: nat, bits: nat)
    requires x < Limit(n) && ((n == 1 && bits == 8) || (n == 2 && bits == 16) || (n == 4 && (bits == 32 || bits == 64)))
    ensures SignExtend(x, n, bits) >= 0 && SignExtend(x, n, bits) % Limit(n) == x
  {
    Limits();
  }

  lemma WritesImmediate(mem: Code, f: Fetched, next: nat, n: nat)
    requires f.opcode == 0xC6 || f.opcode == 0xC7
    requires n == if f.opcode == 0xC6 then 1 else if f.size == 2 then 2 else 4
    requires f.size == 2 || f.size == 4 || f.size == 8
    ensures var wide := f.opcode == 0xC7 && f.size == 8;
      OnWrite(mem, f, next) == Some(Report(f.size, wide, false, !wide, Some(Load(mem, next, n)), next + n))
  {
    assert Load(mem, next, 1) == mem(next) + 256 * Load(mem, next + 1, 0);
  }

  lemma ImmediateVerdict(mem: Code, p: Prefixes, m: ModRM, i: Instruction, f: Fetched, l: Located, end: nat, next: nat,
                         r: Option<Report>)
    requires Found(mem, p, m, i, f, l, end, next) == true && InMemoryOperand(i.dst) && i.src.Immediate?
        && r == OnWrite(mem, f, l.next)
    ensures StoreReported(r, l, i, SizeOf(p), end, DisplacementOf(m.rm)) == true
  {
    var n := |m.rest|;
    ImmediateRead(mem, l, m, f.next, end, n);
    NumberIsLimited(m.rest);
    ImmediateValue(Number(m.rest), n, i.bits);
    WritesImmediate(mem, f, l.next, n);
  }

  // The report on the instruction b at `at`, when that is the store i, fetched from ip.
  ghost predicate ReadsStore(mem: Code, at: nat, b: seq<Byte>, ip: nat, i: Instruction) {
    var f := Fetch(mem, at);
    var l := Locate(mem, f.next, f.rex);
    && HasModRM(f.opcode, f.second) && Shown(mem, f.next, l, l.reg, i.dst, ip + |b|)
    && StoreReported(Analyze(mem, at, true), l, i, SizeOf(TakePrefixes(b)), at + |b|, DisplacementIn(i.dst, ip + |b|))
  }

  lemma StorePlaced(mem: Code, p: Prefixes, m: ModRM, i: Instruction, f: Fetched, l: Located, end: nat, next: nat)
    requires Found(mem, p, m, i, f, l, end, next) == true && InMemoryOperand(i.dst)
    ensures Shown(mem, f.next, l, l.reg, i.dst, next) && DisplacementOf(m.rm) == DisplacementIn(i.dst, next)
    ensures i.src.Register? || i.src.Immediate?
  {}

  // Any store the decoder knows, with the displacement as for loads.
  lemma StoreIsReported(mem: Code, at: nat, b: seq<Byte>, ip: nat, i: Instruction)
    requires Stands(mem, at, b) && Decode(b, ip) == Some(i) && i.op == MOV && InMemoryOperand(i.dst)
    ensures ReadsStore(mem, at, b, ip, i) == true
  {
    var r, end, next := Analyze(mem, at, true), at + |b|, ip + |b|;
    var p, m, f, l := MovIsFound(mem, at, b, ip, i, end, next);
    StoreFacts(mem, p, m, i, f, l, end, next, r);
  }

  lemma StoreFacts(mem: Code, p: Prefixes, m: ModRM, i: Instruction, f: Fetched, l: Located, end: nat, next: nat,
                   r: Option<Report>)
    requires Found(mem, p, m, i, f, l, end, next) == true && InMemoryOperand(i.dst) && r == OnWrite(mem, f, l.next)
    ensures Shown(mem, f.next, l, l.reg, i.dst, next) == true
    ensures StoreReported(r, l, i, SizeOf(p), end, DisplacementIn(i.dst, next)) == true
  {
    StorePlaced(mem, p, m, i, f, l, end, next);
    if i.src.Register? {
      StoreVerdict(mem, p, m, i, f, l, end, next, r);
    } else {
      ImmediateVerdict(mem, p, m, i, f, l, end, next, r);
    }
  }

  // ------------------------------------------------------------ moves that widen

  predicate WideReported(r: Option<Report>, w: Widening, end: nat) {
    var gap := Uncounted(w.src);
    end >= gap && r == Some(Report(w.sbits / 8, !w.signed, w.signed, false, None, end - gap))
  }

  lemma WideVerdict(mem: Code, f: Fetched, l: Located, m: ModRM, w: Widening, end: nat, next: nat, r: Option<Report>)
    requires FindsOperand(mem, f.next, l, m, end) == true && m.rest == [] && m.reg < 16 && w.dst == Register(m.reg)
    requires w.src == Resolve(m.rm, next) && r == OnRead(f, l.next)
    requires f.opcode == 0x0F && (w.sbits == 8 || w.sbits == 16)
    requires f.second == if w.sbits == 8 then (if w.signed then 0xBE else 0xB6) else if w.signed then 0xBF else 0xB7
    ensures Shown(mem, f.next, l, NumberOf(w.dst), w.src, next) && WideReported(r, w, end) == true
  {}

  ghost predicate ReadsWide(mem: Code, at: nat, b: seq<Byte>, ip: nat, w: Widening) {
    var f := Fetch(mem, at);
    && HasModRM(f.opcode, f.second)
    && Shown(mem, f.next, Locate(mem, f.next, f.rex), NumberOf(w.dst), w.src, ip + |b|)
    && WideReported(Analyze(mem, at, false), w, at + |b|)
  }

  // p.rest is this widening move whose operand is m.rm, up to next.
  predicate IsWidening(p: Prefixes, m: ModRM, w: Widening, next: nat) {
    && IsOpcode(p.rest) && InMemoryOperand(m.rm) && m.rest == [] && w.dst == Register(m.reg)
    && w.src == Resolve(m.rm, next) && (w.sbits == 8 || w.sbits == 16) && p.rest[0] == 0x0F
    && p.rest[1] == if w.sbits == 8 then (if w.signed then 0xBE else 0xB6) else if w.signed then 0xBF else 0xB7
  }

  lemma WideForms(b: seq<Byte>, ip: nat, w: Widening, p: Prefixes, next: nat) returns (m: ModRM)
    requires DecodeWide(b, ip) == Some(w) && InMemoryOperand(w.src) && p == TakePrefixes(b) && next == ip + |b|
    ensures w.sbits == 32 ==> IsOpcode(p.rest) && p.rest[0] == 0x63
    ensures w.sbits != 32 ==>
      |p.rest| > 1 && DecodeModRM(p.rest[2..], w.sbits, p.rex) == Some(m) && IsWidening(p, m, w, next)
  {
    m := DecodeModRM(if |p.rest| > 1 && w.sbits != 32 then p.rest[2..] else p.rest[1..], w.sbits, p.rex).value;
  }

  lemma WideFacts(mem: Code, p: Prefixes, m: ModRM, w: Widening, f: Fetched, l: Located, end: nat, next: nat,
                  r: Option<Report>)
    requires |p.rest| > 1 && IsWidening(p, m, w, next) == true && DecodeModRM(p.rest[2..], w.sbits, p.rex) == Some(m)
    requires Agrees(mem, f, p, Tail(p.rest), end) == true && l == Locate(mem, f.next, f.rex) && r == OnRead(f, l.next)
    ensures HasModRM(f.opcode, f.second) && WideReported(r, w, end) == true
    ensures Shown(mem, f.next, l, NumberOf(w.dst), w.src, next) == true
  {
    var s := p.rest[2..];
    LocateAgrees(mem, f.next, s, w.sbits, f.rex, p.rex, m, l);
    WideVerdict(mem, f, l, m, w, end, next, r);
  }

  // MOVZX and MOVSX are always accepted, with the displacement as for loads; MOVSXD never is.
  lemma WideningIsReported(mem: Code, at: nat, b: seq<Byte>, ip: nat, w: Widening)
    requires Stands(mem, at, b) && DecodeWide(b, ip) == Some(w) && InMemoryOperand(w.src)
    ensures Analyze(mem, at, false).Some? <==> w.sbits != 32
    ensures w.sbits != 32 ==> ReadsWide(mem, at, b, ip, w) == true
  {
    var p, f := TakePrefixes(b), Fetch(mem, at);
    var m := WideForms(b, ip, w, p, ip + |b|);
    FetchAgrees(mem, at, b);
    if w.sbits == 32 {
      LongSourceIsRefused(mem, at, f);
    } else {
      WideIsRead(mem, at, b, ip, w, p, m, f);
    }
  }

  lemma LongSourceIsRefused(mem: Code, at: nat, f: Fetched)
    requires f == Fetch(mem, at) && f.opcode == 0x63
    ensures Analyze(mem, at, false).None?
  {}

  lemma WideIsRead(mem: Code, at: nat, b: seq<Byte>, ip: nat, w: Widening, p: Prefixes, m: ModRM, f: Fetched)
    requires |p.rest| > 1 && IsWidening(p, m, w, ip + |b|) == true
    requires DecodeModRM(p.rest[2..], w.sbits, p.rex) == Some(m) && f == Fetch(mem, at)
    requires Agrees(mem, f, p, Tail(p.rest), at + |b|) == true
    ensures Analyze(mem, at, false).Some? && ReadsWide(mem, at, b, ip, w) == true
  {
    var l := Locate(mem, f.next, f.rex);
    WideFacts(mem, p, m, w, f, l, at + |b|, ip + |b|, OnRead(f, l.next));
    AnalyzeAt(mem, at, f, l);
  }

  ghost predicate WroteWide(code: seq<Byte>, code': seq<Byte>, ip: nat, w: Widening) {
    code <= code' && DecodeWide(code'[|code|..], ip) == Some(w)
  }

  // The opcode of a widening move.
  function WideOpcode(signed: bool, sbits: nat): seq<Byte> {
    if sbits == 8 then [0x0F, if signed then 0xBE else 0xB6]
      else if sbits == 16 then [0x0F, if signed then 0xBF else 0xB7] else [0x63]
  }

  predicate Widens(signed: bool, bits: nat, sbits: nat) {
    (bits == 16 || bits == 32 || bits == 64)
      && (sbits == 8 || (sbits == 16 && bits != 16) || (sbits == 32 && bits == 64 && signed))
  }

  lemma WidePerforms(bits: nat, f: WideForm, a: OpArg, r: nat, rex: Rex, at: nat, next: nat, rest: seq<Byte>)
    requires r < 16 && bits != 8 && rex.r == (r / 8 % 2 == 1) && OperandAt(rest, a, r, f.sbits, rex, at, next)
    ensures PerformWide(f, bits, rest, rex, next) == Some(Widening(f.signed, bits, f.sbits, Register(r), Seen(a)))
  {
    RegisterNamed(r, bits, rex, rex.r);
    assert Reads(rest, [], f.sbits, rex, a, r, next);
    assert rest + [] == rest;
  }

  lemma WideDecodes(signed: bool, bits: nat, sbits: nat, a: OpArg, r: nat, ip: nat, rex: Rex, at: nat, rest: seq<Byte>,
                    code: seq<Byte>, code': seq<Byte>)
    requires Widens(signed, bits, sbits) && r < 16 && FitsRex(bits, rex) && rex.r == (r / 8 % 2 == 1)
    requires code' == code + (Head(bits, rex) + WideOpcode(signed, sbits) + rest)
    requires OperandAt(rest, a, r, sbits, rex, at, ip + |Head(bits, rex)| + |WideOpcode(signed, sbits)| + |rest|)
    ensures WroteWide(code, code', ip, Widening(signed, bits, sbits, Register(r), Seen(a))) == true
    ensures rest != [] && sbits != 32 ==> HasMode(code'[|code|..], 2, rest[0] / 64)
  {
    var op, f, b := WideOpcode(signed, sbits), WideForm(signed, sbits, |WideOpcode(signed, sbits)|), Head(bits, rex)
      + WideOpcode(signed, sbits) + rest;
    WidePerforms(bits, f, a, r, rex, at, ip + |b|, rest);
    WideAssembled(bits, rex, op, rest, ip, f, Widening(signed, bits, sbits, Register(r), Seen(a)));
    assert code'[|code|..] == b;
    WidePrefixes(bits, rex, op, rest);
  }

  lemma WideAssembled(bits: nat, rex: Rex, op: seq<Byte>, rest: seq<Byte>, ip: nat, f: WideForm, w: Widening)
    requires Widens(f.signed, bits, f.sbits) && FitsRex(bits, rex) && op == WideOpcode(f.signed, f.sbits)
        && f.skip == |op|
    requires PerformWide(f, bits, rest, rex, ip + |Head(bits, rex)| + |op| + |rest|) == Some(w)
    ensures DecodeWide(Head(bits, rex) + op + rest, ip) == Some(w)
  {
    var b, s := Head(bits, rex) + op + rest, op + rest;
    assert |b| == |Head(bits, rex)| + |op| + |rest|;
    WidePrefixes(bits, rex, op, rest);
    WideClassified(bits, op, rest, f);
    WideOf(b, ip, bits, f, s, rex, w);
  }

  lemma WidePrefixes(bits: nat, rex: Rex, op: seq<Byte>, rest: seq<Byte>)
    requires FitsRex(bits, rex) && op != [] && op[0] != 0x66 && !(0x40 <= op[0] < 0x50)
    ensures TakePrefixes(Head(bits, rex) + op + rest) == Prefixes(bits == 16, rex, op + rest)
  {
    assert Head(bits, rex) + op + rest == Head(bits, rex) + [op[0]] + (op[1..] + rest);
    PrefixesOf(bits, rex, op[0], op[1..] + rest);
    assert [op[0]] + (op[1..] + rest) == op + rest;
  }

  lemma WideClassified(bits: nat, op: seq<Byte>, rest: seq<Byte>, f: WideForm)
    requires Widens(f.signed, bits, f.sbits) && op == WideOpcode(f.signed, f.sbits) && f.skip == |op|
    ensures ClassifyWide(op + rest, bits) == Some(f) && (op + rest)[f.skip..] == rest
  {}

  lemma WideOf(b: seq<Byte>, ip: nat, bits: nat, f: WideForm, s: seq<Byte>, rex: Rex, w: Widening)
    requires TakePrefixes(b) == Prefixes(bits == 16, rex, s) && FitsRex(bits, rex) && ClassifyWide(s, bits) == Some(f)
    requires (bits == 16 || bits == 32 || bits == 64) && f.skip <= |s|
        && PerformWide(f, bits, s[f.skip..], rex, ip + |b|) == Some(w)
    ensures DecodeWide(b, ip) == Some(w)
  {}

  function R(r: nat): OpArg { OpArg(0, SCALE_NONE, r, 0) }

  // The register to write and the operand can be named together; the move ends n bytes behind
  // its head and opcode if its operand is relative to that.
  ghost predicate CanWiden(bits: nat, sbits: nat, dest: nat, src: OpArg, ip: nat, n: nat) {
    var rex := RexFor(src, bits, sbits, dest);
    var next := ip + |Head(bits, rex)| + n + 5;
    dest < 16 && IsOperand(src) && Admits(src, sbits, rex, next, next)
  }

  // Prefixes and opcode.
  method WriteWideHead(emit: XEmitter, signed: bool, bits: nat, sbits: nat, dest: nat, src: OpArg)
    requires Widens(signed, bits, sbits)
    modifies emit
    ensures emit.code == old(emit.code) + (Head(bits, RexFor(src, bits, sbits, dest)) + WideOpcode(signed, sbits))
  {
    if bits == 16 { emit.Write8(0x66); }
    emit.WriteRex(src, bits, sbits, dest);
    var op := WideOpcode(signed, sbits);
    emit.Write8(op[0]);
    if |op| == 2 { emit.Write8(op[1]); }
  }

  // What MOVSX and MOVZX have in common.
  method WriteWide(emit: XEmitter, signed: bool, bits: nat, sbits: nat, dest: nat, src: OpArg)
    requires Widens(signed, bits, sbits)
        && CanWiden(bits, sbits, dest, src, emit.GetCodePtr(), |WideOpcode(signed, sbits)|)
    modifies emit
    ensures WroteWide(old(emit.code), emit.code, old(emit.GetCodePtr()),
        Widening(signed, bits, sbits, Register(dest), Seen(src))) == true
    ensures sbits != 32 ==> HasMode(emit.code[|old(emit.code)|..], 2, ModOf(src))
  {
    ghost var code, ip, rex := emit.code, emit.GetCodePtr(), RexFor(src, bits, sbits, dest);
    WriteWideHead(emit, signed, bits, sbits, dest, src);
    ghost var at := emit.GetCodePtr() + 5;
    ghost var rest := emit.WriteRest(src, 0, dest);
    assert emit.code == code + (Head(bits, rex) + WideOpcode(signed, sbits) + rest);
    WideDecodes(signed, bits, sbits, src, dest, ip, rex, at, rest, code, emit.code);
  }

  method MOVSX(emit: XEmitter, dbits: nat, sbits: nat, dest: nat, src: OpArg)
    requires !src.IsImm() && (dbits == sbits || Widens(true, dbits, sbits))
    requires if dbits == sbits then CanWrite(MOV, dbits, false, src, R(dest), emit.GetCodePtr())
             else CanWiden(dbits, sbits, dest, src, emit.GetCodePtr(), |WideOpcode(true, sbits)|)
    modifies emit
    ensures if dbits == sbits
        then Wrote(old(emit.code), emit.code, old(emit.GetCodePtr()), Asked(MOV, dbits, R(dest), src)) == true
        else WroteWide(old(emit.code), emit.code, old(emit.GetCodePtr()),
          Widening(true, dbits, sbits, Register(dest), Seen(src))) == true
    ensures !src.IsSimpleReg() && (dbits == sbits || sbits != 32) ==>
      HasMode(emit.code[|old(emit.code)|..], if dbits == sbits then 1 else 2, ModOf(src))
  {
    if dbits == sbits {
      WriteNormalOp(emit, dbits, MOV, R(dest), src);
    } else {
      WriteWide(emit, true, dbits, sbits, dest, src);
    }
  }

  // Zero-extension to 64 bits is that of every 32-bit result.
  method MOVZX(emit: XEmitter, dbits: nat, sbits: nat, dest: nat, src: OpArg)
    requires !src.IsImm() && (dbits == sbits || Widens(true, dbits, sbits))
    requires if dbits == sbits || sbits == 32 then CanWrite(MOV, sbits, false, src, R(dest), emit.GetCodePtr())
             else CanWiden(if dbits == 64 then 32 else dbits, sbits, dest, src, emit.GetCodePtr(), 2)
    modifies emit
    ensures if dbits == sbits || sbits == 32
        then Wrote(old(emit.code), emit.code, old(emit.GetCodePtr()), Asked(MOV, sbits, R(dest), src)) == true
        else WroteWide(old(emit.code), emit.code, old(emit.GetCodePtr()),
          Widening(false, if dbits == 64 then 32 else dbits, sbits, Register(dest), Seen(src))) == true
    ensures !src.IsSimpleReg() ==>
      HasMode(emit.code[|old(emit.code)|..], if dbits == sbits || sbits == 32 then 1 else 2, ModOf(src))
  {
    if dbits == sbits {
      WriteNormalOp(emit, dbits, MOV, R(dest), src);
    } else if sbits == 32 {
      WriteWithRegister(emit, src, false, MOV, R(dest), 32);
    } else {
      WriteWide(emit, false, if dbits == 64 then 32 else dbits, sbits, dest, src);
    }
  }

  // ------------------------------------------------------------ what was written is read back

  predicate InMemoryArg(a: OpArg) { a.scale != SCALE_NONE && !a.IsImm() }

  // What was written behind `code` stands in memory.
  ghost predicate InMemory(mem: Code, at: nat, code: seq<Byte>, code': seq<Byte>, b: seq<Byte>) {
    code <= code' && b == code'[|code|..] && Stands(mem, at, b)
  }

  // The mode byte, k bytes behind the prefixes, stands where the analyzer looks for it.
  lemma ModeStands(mem: Code, at: nat, b: seq<Byte>, k: nat, mod: nat)
    requires Stands(mem, at, b) && IsOpcode(TakePrefixes(b).rest) && HasMode(b, k, mod)
    requires k == if TakePrefixes(b).rest[0] == 0x0F then 2 else 1
    ensures mem(Fetch(mem, at).next) / 64 == mod
  {
    var f, p := Fetch(mem, at), TakePrefixes(b);
    FetchAgrees(mem, at, b);
    assert mem(f.next + 0) == p.rest[k..][0];
  }

  // The displacement that is reported is the operand's exactly if the emitter writes one, or the
  // four bytes behind the operand are 0.
  ghost predicate DisplacementRead(mem: Code, at: nat, a: OpArg, o: Operand, next: nat) {
    var f := Fetch(mem, at);
    var l := Locate(mem, f.next, f.rex);
    l.displacement == DisplacementIn(o, next) <==> ModOf(a) != 0 || NoBaseRegister(o) || Load(mem, l.next, 4) == 0
  }

  lemma ModeDecides(mem: Code, at: nat, b: seq<Byte>, k: nat, a: OpArg, o: Operand, reg: nat, next: nat)
    requires Stands(mem, at, b) && IsOpcode(TakePrefixes(b).rest) && HasMode(b, k, ModOf(a))
    requires k == if TakePrefixes(b).rest[0] == 0x0F then 2 else 1
    requires var f := Fetch(mem, at); Shown(mem, f.next, Locate(mem, f.next, f.rex), reg, o, next)
    ensures DisplacementRead(mem, at, a, o, next)
  {
    ModeStands(mem, at, b, k, ModOf(a));
  }

  lemma MovOpcode(b: seq<Byte>, ip: nat, i: Instruction)
    requires Decode(b, ip) == Some(i) && TouchesMemory(i)
    ensures var s := TakePrefixes(b).rest; IsOpcode(s) && s[0] != 0x0F
  {
    var p, next := TakePrefixes(b), ip + |b|;
    DecodedForm(b, ip, i, p, next);
    var _ := MovForms(p, next, i);
  }

  // MOV of a register from memory.
  lemma WrittenLoadIsRead(mem: Code, at: nat, ip: nat, code: seq<Byte>, code': seq<Byte>, b: seq<Byte>, bits: nat,
                          r: nat, a: OpArg, i: Instruction)
    requires IsWidth(bits) && IsReg(r) && IsOperand(a) && InMemoryArg(a) && InMemory(mem, at, code, code', b)
    requires Asked(MOV, bits, R(r), a) == Some(i) && Wrote(code, code', ip, Some(i)) && HasMode(b, 1, ModOf(a))
    ensures ReadsLoad(mem, at, b, ip, i) == true && DisplacementRead(mem, at, a, i.src, ip + |b|)
  {
    LoadIsReported(mem, at, b, ip, i);
    MovOpcode(b, ip, i);
    ModeDecides(mem, at, b, 1, a, i.src, NumberOf(i.dst), ip + |b|);
  }

  // MOV of a register or an immediate to memory.
  lemma WrittenStoreIsRead(mem: Code, at: nat, ip: nat, code: seq<Byte>, code': seq<Byte>, b: seq<Byte>, bits: nat,
                           a: OpArg, v: OpArg, i: Instruction)
    requires IsWidth(bits) && IsOperand(a) && InMemoryArg(a) && InMemory(mem, at, code, code', b)
    requires (v.IsSimpleReg() || v.IsImm()) && Asked(MOV, bits, a, v) == Some(i) && Wrote(code, code', ip, Some(i))
    requires HasMode(b, 1, ModOf(a))
    ensures ReadsStore(mem, at, b, ip, i) == true && DisplacementRead(mem, at, a, i.dst, ip + |b|)
  {
    StoreIsReported(mem, at, b, ip, i);
    MovOpcode(b, ip, i);
    var f := Fetch(mem, at);
    ModeDecides(mem, at, b, 1, a, i.dst, Locate(mem, f.next, f.rex).reg, ip + |b|);
  }

  // MOVZX or MOVSX of a byte or a half-word there.
  lemma WrittenWideningIsRead(mem: Code, at: nat, ip: nat, code: seq<Byte>, code': seq<Byte>, b: seq<Byte>, a: OpArg,
                              w: Widening)
    requires IsOperand(a) && InMemoryArg(a) && InMemory(mem, at, code, code', b) && WroteWide(code, code', ip, w)
    requires (w.sbits == 8 || w.sbits == 16) && w.src == Seen(a) && HasMode(b, 2, ModOf(a))
    ensures ReadsWide(mem, at, b, ip, w) == true && DisplacementRead(mem, at, a, w.src, ip + |b|)
  {
    WideningIsReported(mem, at, b, ip, w);
    ModeDecides(mem, at, b, 2, a, w.src, NumberOf(w.dst), ip + |b|);
  }

  // ------------------------------------------------------------ inputs

  function At(b: seq<Byte>): Code { (p: nat) => if p < |b| then b[p] else 0 }

  // MOV EAX, [4] without a base register: 3 of its 7 bytes are counted.
  lemma NoBaseIsShort()
    ensures var b := [0x8B, 0x04, 0x25, 0x04, 0x00, 0x00, 0x00];
      && Decode(b, 0) == Some(Instruction(MOV, 32, Register(0), Memory(-1, -1, 1, 4)))
      && Analyze(At(b), 0, false) == Some(Report(4, false, false, false, None, 3))
  {
    var b := [0x8B, 0x04, 0x25, 0x04, 0x00, 0x00, 0x00];
    var d: seq<Byte> := [0x04, 0x00, 0x00, 0x00];
    assert b[1..][2..] == d && d[..4] == d && d[1..] == [0, 0, 0] && d[1..][1..] == [0, 0] && [0, 0][1..] == [0];
    assert Number([0]) == 0 && Number([0, 0]) == 0 && Number([0, 0, 0]) == 0 && Number(d) == 4;
  }

  // MOV byte [RAX], 5 is reported with operand size 4.
  lemma ByteStoreIsWide()
    ensures var b := [0xC6, 0x00, 0x05];
      && Decode(b, 0) == Some(Instruction(MOV, 8, Memory(0, -1, 1, 0), Immediate(5)))
      && Analyze(At(b), 0, true) == Some(Report(4, false, false, true, Some(5), 3))
  {
    var b := [0xC6, 0x00, 0x05];
    assert b[1..][1..] == [0x05] && Number([0x05]) == 5;
  }

  // MOV EAX, [RAX] with 01 02 03 04 behind it: those four bytes are the displacement reported.
  lemma BytesBehindAreReported()
    ensures var mem := At([0x8B, 0x00, 0x01, 0x02, 0x03, 0x04]);
      && Decode([0x8B, 0x00], 0) == Some(Instruction(MOV, 32, Register(0), Memory(0, -1, 1, 0)))
      && Analyze(mem, 0, false) == Some(Report(4, false, false, false, None, 2))
      && Locate(mem, Fetch(mem, 0).next, Fetch(mem, 0).rex).displacement == 0x0403_0201
  {
    var mem := At([0x8B, 0x00, 0x01, 0x02, 0x03, 0x04]);
    assert Load(mem, 5, 1) == 4 && Load(mem, 4, 2) == 0x0403 && Load(mem, 3, 3) == 0x04_0302;
    assert Load(mem, 2, 4) == 0x0403_0201;
  }
}
