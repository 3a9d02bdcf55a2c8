/** MOVI2R of Common/Arm64Emitter.cpp with the instruction encoders it uses, against the decoder
    and the instructions of Arm64Machine. */
module Arm64Constants {
  import opened Words
  import opened Arm64Machine

  // A general register: its width and its number, as Is64Bit and DecodeReg give them.  The
  // number 31 is the zero register.
  datatype Reg = Reg(wide: bool, num: nat)

  predicate IsReg(r: Reg) { r.num < 32 }

  function B(b: bool): nat { if b then 1 else 0 }

  // ------------------------------------------------------------ the encoders; no two fields overlap

  function EncodeMOVWideInst(op: nat, rd: Reg, imm: nat, pos: nat): nat {
    B(rd.wide) * 0x8000_0000 + op * 0x2000_0000 + 0x25 * 0x80_0000 + pos * 0x20_0000 + imm * 0x20 + rd.num
  }

  // imm & 3 goes to bit 29, the rest of the low 21 bits to bit 5.
  function EncodeAddressInst(op: nat, rd: Reg, imm: int): nat {
    op * 0x8000_0000 + imm % 4 * 0x2000_0000 + 0x10 * 0x100_0000 + (imm % 0x20_0000 - imm % 4) * 8 + rd.num
  }

  function EncodeAddSubImmInst(op: nat, flags: bool, shift: nat, imm: nat, rn: Reg, rd: Reg): nat {
    B(rd.wide) * 0x8000_0000 + op * 0x4000_0000 + B(flags) * 0x2000_0000 + 0x11 * 0x100_0000 + shift * 0x40_0000
    + imm * 0x400 + rn.num * 0x20 + rd.num
  }

  // With a register shifted left by nothing, whose GetData is 0.  opc and n are LogicalEnc.
  function EncodeLogicalInst(opc: nat, n: nat, rd: Reg, rn: Reg, rm: Reg): nat {
    B(rd.wide) * 0x8000_0000 + opc * 0x2000_0000 + 0x5 * 0x200_0000 + n * 0x20_0000 + rm.num * 0x1_0000
      + rn.num * 0x20 + rd.num
  }

  lemma DecodeMoveWide(op: nat, rd: Reg, imm: nat, pos: nat)
    requires op < 4 && IsReg(rd) && imm < 0x1_0000 && pos < 4
    ensures Decode(EncodeMOVWideInst(op, rd, imm, pos)) == MoveWide(rd.wide, op, pos, imm, rd.num)
  {
    var w := EncodeMOVWideInst(op, rd, imm, pos);
    var w5 := imm + 0x1_0000 * (pos + 4 * (0x25 + 0x40 * (op + 4 * B(rd.wide))));
    Cut(w, 0x20, w5, rd.num);
    Cut(w, 0x20_0000, pos + 4 * (0x25 + 0x40 * (op + 4 * B(rd.wide))), imm * 0x20 + rd.num);
    Cut(w, 0x80_0000, 0x25 + 0x40 * (op + 4 * B(rd.wide)), pos * 0x20_0000 + imm * 0x20 + rd.num);
    Cut(w, 0x100_0000, 0x12 + 0x20 * (op + 4 * B(rd.wide)), 0x80_0000 + pos * 0x20_0000 + imm * 0x20 + rd.num);
    Cut(w, 0x2000_0000, op + 4 * B(rd.wide), 0x25 * 0x80_0000 + pos * 0x20_0000 + imm * 0x20 + rd.num);
    Cut(w, 0x8000_0000, B(rd.wide), op * 0x2000_0000 + 0x25 * 0x80_0000 + pos * 0x20_0000 + imm * 0x20 + rd.num);
  }

  lemma DecodeAddress(op: nat, rd: Reg, imm: int)
    requires op < 2 && IsReg(rd) && -0x10_0000 <= imm < 0x10_0000
    ensures Decode(EncodeAddressInst(op, rd, imm)) == PcRelative(op == 1, imm, rd.num)
  {
    var w, u := EncodeAddressInst(op, rd, imm), imm % 0x20_0000;
    var lo, hi := imm % 4, u / 4;
    LowTwoBits(imm);
    var group := 0x10 + 0x20 * (lo + 4 * op);
    assert w == group * 0x100_0000 + hi * 0x20 + rd.num;
    Cut(w, 0x20, hi + 0x8_0000 * group, rd.num);
    Cut(hi + 0x8_0000 * group, 0x8_0000, group, hi);
    Cut(w, 0x100_0000, group, hi * 0x20 + rd.num);
    Cut(w, 0x2000_0000, lo + 4 * op, 0x10 * 0x100_0000 + hi * 0x20 + rd.num);
    Cut(w, 0x8000_0000, op, lo * 0x2000_0000 + 0x10 * 0x100_0000 + hi * 0x20 + rd.num);
    ReadAddress(w, op, hi + 0x8_0000 * group, group, hi, lo, rd, imm);
  }

  lemma ReadAddress(w: nat, op: nat, w5: nat, group: nat, hi: nat, lo: nat, rd: Reg, imm: int)
    requires w % 0x20 == rd.num && w / 0x20 == w5 && w5 % 0x8_0000 == hi && w / 0x100_0000 == group
    requires op < 2 && lo < 4 && group == 0x10 + 0x20 * (lo + 4 * op)
    requires w / 0x2000_0000 == lo + 4 * op && w / 0x8000_0000 == op && SignExtend21(hi * 4 + lo) == imm
    ensures Decode(w) == PcRelative(op == 1, imm, rd.num)
  {}

  lemma LowTwoBits(imm: int)
    requires -0x10_0000 <= imm < 0x10_0000
    ensures imm % 0x20_0000 == 4 * (imm % 0x20_0000 / 4) + imm % 4 && SignExtend21(imm % 0x20_0000) == imm
  {}

  lemma DecodeAdd(rd: Reg, rn: Reg, imm: nat)
    requires IsReg(rd) && IsReg(rn) && imm < 0x1000
    ensures Decode(EncodeAddSubImmInst(0, false, 0, imm, rn, rd)) == AddImmediate(rd.wide, 0, imm, rn.num, rd.num)
  {
    var w, low := EncodeAddSubImmInst(0, false, 0, imm, rn, rd), rn.num * 0x20 + rd.num;
    var low2 := imm * 0x400 + low;
    var group := 0x11 + 0x80 * B(rd.wide);
    assert w == group * 0x100_0000 + low2;
    Cut(w, 0x20, rn.num + 0x20 * (imm + 0x4000 * group), rd.num);
    Cut(w, 0x400, imm + 0x4000 * group, low);
    Cut(w, 0x40_0000, 4 * group, low2);
    Cut(w, 0x100_0000, group, low2);
    Cut(w, 0x2000_0000, 4 * B(rd.wide), 0x11 * 0x100_0000 + low2);
    Cut(w, 0x8000_0000, B(rd.wide), 0x11 * 0x100_0000 + low2);
    DecodeAs(w, group, 4 * group, rd, rn, imm);
  }

  lemma DecodeAs(w: nat, group: nat, wide: nat, rd: Reg, rn: Reg, imm: nat)
    requires IsReg(rd) && IsReg(rn) && imm < 0x1000 && group == 0x11 + 0x80 * B(rd.wide) && wide == 4 * group
    requires w % 0x20 == rd.num && w / 0x20 % 0x20 == rn.num && w / 0x400 % 0x1000 == imm && w / 0x40_0000 == wide
    requires w / 0x100_0000 == group && w / 0x2000_0000 == 4 * B(rd.wide) && w / 0x8000_0000 == B(rd.wide)
    ensures Decode(w) == AddImmediate(rd.wide, 0, imm, rn.num, rd.num)
  {}

  lemma DecodeOrn(rd: Reg, rn: Reg, rm: Reg)
    requires IsReg(rd) && IsReg(rn) && IsReg(rm)
    ensures Decode(EncodeLogicalInst(1, 1, rd, rn, rm)) == OrNot(rd.wide, 0, rm.num, 0, rn.num, rd.num)
  {
    var w, sf, low := EncodeLogicalInst(1, 1, rd, rn, rm), B(rd.wide), rn.num * 0x20 + rd.num;
    var group := 0xA + 0x20 * (1 + 4 * sf);
    var w16 := rm.num + 0x20 * (1 + 8 * group);
    var low16 := 0x20_0000 + rm.num * 0x1_0000 + low;
    assert w == group * 0x100_0000 + low16;
    Cut(w, 0x20, rn.num + 0x20 * (0x40 * w16), rd.num);
    Cut(w, 0x400, 0x40 * w16, low);
    Cut(w, 0x1_0000, w16, low);
    Cut(w, 0x20_0000, 1 + 8 * group, rm.num * 0x1_0000 + low);
    Cut(w, 0x40_0000, 4 * group, low16);
    Cut(w, 0x100_0000, group, low16);
    Cut(w, 0x2000_0000, 1 + 4 * sf, 0xA * 0x100_0000 + low16);
    Cut(w, 0x8000_0000, sf, 0x2000_0000 + 0xA * 0x100_0000 + low16);
    ReadOrn(w, w16, group, rd, rn, rm);
  }

  lemma ReadOrn(w: nat, w16: nat, group: nat, rd: Reg, rn: Reg, rm: Reg)
    requires IsReg(rd) && IsReg(rn) && IsReg(rm)
    requires group == 0xA + 0x20 * (1 + 4 * B(rd.wide)) && w16 == rm.num + 0x20 * (1 + 8 * group)
    requires w % 0x20 == rd.num && w / 0x20 == rn.num + 0x20 * (0x40 * w16) && w / 0x400 == 0x40 * w16
    requires w / 0x1_0000 == w16 && w / 0x20_0000 == 1 + 8 * group && w / 0x40_0000 == 4 * group
    requires w / 0x100_0000 == group && w / 0x2000_0000 == 1 + 4 * B(rd.wide) && w / 0x8000_0000 == B(rd.wide)
    ensures Decode(w) == OrNot(rd.wide, 0, rm.num, 0, rn.num, rd.num)
  {}

  // ------------------------------------------------------------ what a sequence leaves behind

  // c after n instructions that changed rd only.
  function After(c: Core, rd: nat, v: nat, n: nat): Core
    requires rd < |c.x|
  {
    c.(x := c.x[rd := v], pc := (c.pc + 4 * n) % WORD)
  }

  // From any registers at pc, the instructions leave v in rd and everything else as it was.
  ghost predicate Loads(insts: seq<Inst>, pc: nat, rd: Reg, v: nat) {
    rd.num < 31 && forall c: Core :: IsCore(c) && c.pc == pc ==> Run(c, insts) == After(c, rd.num, v, |insts|)
  }

  lemma NextPc(pc: nat, n: nat)
    ensures ((pc + 4 * n) % WORD + 4) % WORD == (pc + 4 * (n + 1)) % WORD
  {}

  lemma ApplyAfter(c: Core, rd: nat, v: nat, n: nat, v': nat)
    requires rd < |c.x|
    ensures Apply(After(c, rd, v, n), Writes(rd, v')) == After(c, rd, v', n + 1)
  {
    NextPc(c.pc, n);
    assert c.x[rd := v][rd := v'] == c.x[rd := v'];
  }

  lemma StepAfter(c: Core, insts: seq<Inst>, c': Core, rd: nat, v: nat, i: Inst, v': nat)
    requires rd < |c.x| && Run(c, insts) == c' == After(c, rd, v, |insts|)
    requires EffectOf(i, c'.x, c'.pc) == Writes(rd, v')
    ensures Run(c, insts + [i]) == After(c, rd, v', |insts| + 1)
  {
    RunSnoc(c, insts, i);
    ApplyAfter(c, rd, v, |insts|, v');
    assert Step(c', i) == Apply(c', Writes(rd, v'));
  }

  lemma NothingRun(c: Core, rd: nat)
    requires IsCore(c) && rd < 31
    ensures Run(c, []) == After(c, rd, c.x[rd], 0)
  {
    assert c.x[rd := c.x[rd]] == c.x;
  }

  // One more instruction whose effect on rd does not depend on the other registers.
  lemma LoadsSnoc(insts: seq<Inst>, pc: nat, rd: Reg, v: nat, i: Inst, v': nat)
    requires Loads(insts, pc, rd, v)
    requires forall x: seq<nat> :: |x| == 31 && x[rd.num] == v ==>
        EffectOf(i, x, (pc + 4 * |insts|) % WORD) == Writes(rd.num, v')
    ensures Loads(insts + [i], pc, rd, v')
  {
    forall c: Core | IsCore(c) && c.pc == pc
      ensures Run(c, insts + [i]) == After(c, rd.num, v', |insts| + 1)
    {
      var c' := Run(c, insts);
      assert c' == After(c, rd.num, v, |insts|);
      assert |c'.x| == 31 && c'.x[rd.num] == v;
      StepAfter(c, insts, c', rd.num, v, i, v');
    }
  }

  // One instruction from any state.
  lemma LoadsOne(pc: nat, rd: Reg, i: Inst, v': nat)
    requires rd.num < 31 && pc < WORD
    requires forall x: seq<nat> :: |x| == 31 ==> EffectOf(i, x, pc) == Writes(rd.num, v')
    ensures Loads([i], pc, rd, v')
  {
    forall c: Core | IsCore(c) && c.pc == pc
      ensures Run(c, [i]) == After(c, rd.num, v', 1)
    {
      NothingRun(c, rd.num);
      assert [] + [i] == [i] && c.x[rd.num := c.x[rd.num]] == c.x;
      StepAfter(c, [], Run(c, []), rd.num, c.x[rd.num], i, v');
    }
  }

  // ------------------------------------------------------------ the parts of the immediate

  // The immediate below its i-th part.
  function LowParts(imm: nat, i: nat): nat {
    if i == 0 then 0 else if i == 1 then imm % 0x1_0000 else if i == 2 then imm % 0x1_0000_0000
    else if i == 3 then imm % 0x1_0000_0000_0000 else imm % WORD
  }

  lemma NextPart(imm: nat, i: nat)
    requires i < 4
    ensures LowParts(imm, i + 1) == LowParts(imm, i) + AtHw(HwOf(imm, i), i)
    ensures HwOf(imm, i) < 0x1_0000
  {
    if i == 1 { Digits(imm, 0x1_0000, 0x1_0000); }
    if i == 2 { Digits(imm, 0x1_0000_0000, 0x1_0000); }
    if i == 3 { Digits(imm, 0x1_0000_0000_0000, 0x1_0000); }
  }

  // A fresh register's low parts, one more replaced.
  lemma KeepFresh(v: nat, imm: nat, i: nat)
    requires i < 4 && v == LowParts(imm, i)
    ensures Keep(v, i, HwOf(imm, i)) == LowParts(imm, i + 1)
  {
    NextPart(imm, i);
  }

  // A register whose low i parts are the immediate's and whose others are still old.
  function Blend(wide: bool, old': nat, imm: nat, i: nat): nat {
    if i == 0 then old' else Sized(wide, old' - LowParts(old', i) + LowParts(imm, i))
  }

  // Replacing what is below the unit h leaves the quotient.
  lemma Replaced(old': nat, imm: nat, h: nat, n: nat)
    requires h > 0 && old' < n * h
    ensures 0 <= old' - old' % h + imm % h < n * h && (old' - old' % h + imm % h) / h == old' / h
  {
    var q, r := old' / h, imm % h;
    assert old' - old' % h == q * h;
    Cut(q * h + r, h, q, r);
    if q >= n { Monotone(n, q, h); } else { Monotone(q + 1, n, h); Distribute(q, 1, h); }
  }

  lemma KeepWide(old': nat, imm: nat, i: nat)
    requires old' < WORD && 0 < i < 4
    ensures Blend(true, old', imm, i) == old' - LowParts(old', i) + LowParts(imm, i)
    ensures HwOf(Blend(true, old', imm, i), i) == HwOf(old', i)
  {
    var low := LowParts(imm, i);
    if i == 1 {
      Replaced(old', imm, 0x1_0000, 0x1_0000_0000_0000);
      BlendIs(old' - old' % 0x1_0000 + low);
    } else if i == 2 {
      Replaced(old', imm, 0x1_0000_0000, 0x1_0000_0000);
      BlendIs(old' - old' % 0x1_0000_0000 + low);
    } else {
      Replaced(old', imm, 0x1_0000_0000_0000, 0x1_0000);
      BlendIs(old' - old' % 0x1_0000_0000_0000 + low);
    }
  }

  lemma BlendIs(v: nat)
    requires v < WORD
    ensures Sized(true, v) == v
  {}

  // The second of two narrow halves.
  lemma KeepNarrow(old': nat, imm: nat)
    ensures var v := (old' - old' % 0x1_0000 + imm % 0x1_0000) % 0x1_0000_0000;
      && v - HwOf(v, 1) * 0x1_0000 == imm % 0x1_0000
      && Sized(false, old' - old' % 0x1_0000_0000 + imm % 0x1_0000_0000) == imm % 0x1_0000_0000
  {
    var v := (old' - old' % 0x1_0000 + imm % 0x1_0000) % 0x1_0000_0000;
    var q, r := old' / 0x1_0000, imm % 0x1_0000;
    assert old' - old' % 0x1_0000 == q * 0x1_0000;
    Cut(q * 0x1_0000 + r, 0x1_0000_0000, q / 0x1_0000, q % 0x1_0000 * 0x1_0000 + r);
    Cut(v, 0x1_0000, q % 0x1_0000, r);
    assert old' - old' % 0x1_0000_0000 == old' / 0x1_0000_0000 * 0x1_0000_0000;
    Cut(old' / 0x1_0000_0000 * 0x1_0000_0000 + imm % 0x1_0000_0000, 0x1_0000_0000, old' / 0x1_0000_0000,
      imm % 0x1_0000_0000);
  }

  lemma KeepBlend(wide: bool, old': nat, imm: nat, i: nat)
    requires old' < WORD && i < (if wide then 4 else 2)
    ensures Sized(wide, Keep(Blend(wide, old', imm, i), i, HwOf(imm, i))) == Blend(wide, old', imm, i + 1)
  {
    if wide {
      KeepBlendWide(old', imm, i);
    } else {
      KeepBlendNarrow(old', imm, i);
    }
  }

  lemma KeepBlendWide(old': nat, imm: nat, i: nat)
    requires old' < WORD && i < 4
    ensures Sized(true, Keep(Blend(true, old', imm, i), i, HwOf(imm, i))) == Blend(true, old', imm, i + 1)
  {
    NextPart(old', i);
    NextPart(imm, i);
    if i > 0 { KeepWide(old', imm, i); }
  }

  lemma KeepBlendNarrow(old': nat, imm: nat, i: nat)
    requires old' < WORD && i < 2
    ensures Sized(false, Keep(Blend(false, old', imm, i), i, HwOf(imm, i))) == Blend(false, old', imm, i + 1)
  {
    if i == 1 { KeepBlendHigh(old', imm); }
  }

  lemma KeepBlendHigh(old': nat, imm: nat)
    requires old' < WORD
    ensures Sized(false, Keep(Blend(false, old', imm, 1), 1, HwOf(imm, 1))) == Blend(false, old', imm, 2)
  {
    KeepNarrow(old', imm);
    SecondHalf(imm);
    HalfBlend(old', imm);
    assert Keep(Blend(false, old', imm, 1), 1, HwOf(imm, 1)) == imm % 0x1_0000_0000;
  }

  lemma HalfBlend(old': nat, imm: nat)
    requires old' < WORD
    ensures Blend(false, old', imm, 1) == (old' - old' % 0x1_0000 + imm % 0x1_0000) % 0x1_0000_0000
  {}

  lemma SecondHalf(imm: nat)
    ensures imm % 0x1_0000 + HwOf(imm, 1) * 0x1_0000 == imm % 0x1_0000_0000
  {
    NextPart(imm, 1);
  }

  // ------------------------------------------------------------ addresses near the code

  function ToS64(x: int): int { if x % WORD < WORD / 2 then x % WORD else x % WORD - WORD }

  function Abs64(x: int): int { if x >= 0 then x else ToS64(-x) }

  function Page(pc: nat): nat { pc - pc % 0x1000 }

  function AlignedOffset(imm: nat, pc: nat): int { ToS64(imm - Page(pc)) }

  // The 16-bit parts that are not zero.
  function NonZeroParts(imm: nat, parts: nat): set<nat> { set i: nat | i < parts && HwOf(imm, i) != 0 }

  // The branch with an address instruction is taken...
  predicate UsesAddress(rd: Reg, imm: nat, pc: nat, optimize: bool) {
    && optimize && !IsSpecial(rd, imm) && |NonZeroParts(imm, if rd.wide then 4 else 2)| > 1
    && Abs64(AlignedOffset(imm, pc)) < 0xFFFF_FFFF
  }

  predicate IsSpecial(rd: Reg, imm: nat) {
    imm == 0 || imm == Ones(rd.wide) || (!rd.wide && Or(imm, 0xFFFF_0000) == imm)
  }

  predicate PageAligned(imm: nat, pc: nat) { Abs64(AlignedOffset(imm, pc)) % 0x1000 == 0 }

  // ... and it is one by pages: the cast of the distance to 32 bits is then in play.
  predicate UsesPage(rd: Reg, imm: nat, pc: nat, optimize: bool) {
    UsesAddress(rd, imm, pc, optimize) && (PageAligned(imm, pc) || !(-0xF_FFFF <= ToS64(imm - pc) <= 0xF_FFFF))
  }

  predicate InS32(x: int) { -0x8000_0000 <= x < 0x8000_0000 }

  lemma AlignedIs(imm: nat, pc: nat)
    ensures PageAligned(imm, pc) <==> imm % 0x1000 == 0
    ensures AlignedOffset(imm, pc) % 0x1000 == imm % 0x1000
  {
    var off := AlignedOffset(imm, pc);
    SubPage(imm, pc);
    SameLow(imm - Page(pc), off);
    if off < 0 {
      SameLow(-off, ToS64(-off));
      Negated(off);
    }
  }

  lemma SubPage(imm: nat, pc: nat)
    ensures (imm - Page(pc)) % 0x1000 == imm % 0x1000
  {
    PageOf(pc);
  }

  lemma Negated(x: int)
    ensures -x % 0x1000 == 0 <==> x % 0x1000 == 0
  {}

  lemma PageOf(pc: nat)
    ensures Page(pc) % 0x1000 == 0
  {}

  lemma SameLow(d: int, off: int)
    requires off == ToS64(d)
    ensures off % 0x1000 == d % 0x1000
  {
    var k := (d - off) / WORD;
    assert d - off == k * WORD;
    assert d == off + k * 0x10_0000_0000_0000 * 0x1000;
  }

  // The distance in pages that ADRP gets.
  function Distance(imm: nat, pc: nat): int {
    ToS32(AlignedOffset(imm, pc) - AlignedOffset(imm, pc) % 0x1000)
  }

  // The page the s32 distance reaches, plus the low bits of the immediate.
  function PageValue(imm: nat, pc: nat): int {
    (Page(pc) + Distance(imm, pc)) % WORD + imm % 0x1000
  }

  lemma ToS32Is(x: int)
    ensures InS32(ToS32(x)) && (ToS32(x) == x <==> InS32(x))
    ensures (ToS32(x) - x) % 0x1_0000_0000 == 0
    ensures x % 0x1000 == 0 ==> ToS32(x) % 0x1000 == 0
  {
    SameLow32(x % 0x1_0000_0000, x);
  }

  lemma SameLow32(u: int, x: int)
    requires u == x % 0x1_0000_0000
    ensures x % 0x1000 == 0 ==> u % 0x1000 == 0
  {
    var k := x / 0x1_0000_0000;
    assert x == k * 0x10_0000 * 0x1000 + u;
    var y := x / 0x1000;
    if x == y * 0x1000 { assert u == (y - k * 0x10_0000) * 0x1000; }
  }

  lemma ToS64Is(x: int)
    ensures (x - ToS64(x)) % WORD == 0 && -WORD / 2 <= ToS64(x) < WORD / 2
  {}

  lemma SameMod(a: int, b: int)
    requires (a - b) % 0x1_0000_0000 == 0
    ensures a % 0x1_0000_0000 == b % 0x1_0000_0000
  {}

  lemma PageValueIs(imm: nat, pc: nat)
    requires imm < WORD && pc < WORD
    ensures Distance(imm, pc) % 0x1000 == 0 && InS32(Distance(imm, pc))
    ensures PageValue(imm, pc) < WORD && (PageValue(imm, pc) == imm <==> InS32(AlignedOffset(imm, pc)))
    ensures PageValue(imm, pc) % 0x1_0000_0000 == imm % 0x1_0000_0000
  {
    AlignedIs(imm, pc);
    PageOf(pc);
    ToS64Is(imm - Page(pc));
    PageSum(imm, Page(pc), AlignedOffset(imm, pc));
  }

  lemma PageSum(imm: nat, page: nat, off: int)
    requires imm < WORD && page < WORD && page % 0x1000 == 0 && (imm - page - off) % WORD == 0
    requires -WORD / 2 <= off < WORD / 2 && off % 0x1000 == imm % 0x1000
    ensures var s := ToS32(off - off % 0x1000); var v := (page + s) % WORD + imm % 0x1000;
      && s % 0x1000 == 0 && InS32(s) && v < WORD && (v == imm <==> InS32(off))
        && v % 0x1_0000_0000 == imm % 0x1_0000_0000
  {
    var x := off - off % 0x1000;
    PageStart(off, x);
    ToS32Is(x);
    PageParts(imm, page, off, imm % 0x1000, imm - imm % 0x1000, x, ToS32(x));
  }

  lemma PageStart(off: int, x: int)
    requires x == off - off % 0x1000
    ensures x % 0x1000 == 0 && (off >= -WORD / 2 ==> x >= -WORD / 2)
  {}

  lemma PageParts(imm: nat, page: nat, off: int, lo: nat, top: nat, x: int, s: int)
    requires imm < WORD && page < WORD && page % 0x1000 == 0 && (imm - page - off) % WORD == 0
    requires -WORD / 2 <= x < WORD / 2 && InS32(s) && (s - x) % 0x1_0000_0000 == 0 && (s == x <==> InS32(x))
    requires lo == imm % 0x1000 == off % 0x1000 && top == imm - lo && x == off - lo && s % 0x1000 == 0
    ensures var v := (page + s) % WORD + lo;
      v < WORD && (v == imm <==> InS32(off)) && v % 0x1_0000_0000 == imm % 0x1_0000_0000
  {
    assert top - page - x == imm - page - off && top % 0x1000 == 0;
    DistanceIs(page, top, x, s);
    InS32Page(off);
    OnThePage((page + s) % WORD, imm);
  }

  lemma InS32Page(off: int)
    ensures InS32(off) <==> InS32(off - off % 0x1000)
  {}

  lemma OnThePage(v: nat, imm: nat)
    requires v < WORD && v % 0x1000 == 0 && (v - (imm - imm % 0x1000)) % 0x1_0000_0000 == 0
    ensures v + imm % 0x1000 < WORD && (v + imm % 0x1000 == imm <==> v == imm - imm % 0x1000)
    ensures (v + imm % 0x1000) % 0x1_0000_0000 == imm % 0x1_0000_0000
  {
    SameMod(v + imm % 0x1000, imm);
  }

  lemma DistanceIs(page: nat, top: nat, x: int, s: int)
    requires page < WORD && top < WORD && page % 0x1000 == top % 0x1000 == 0 && -WORD / 2 <= x < WORD / 2
        && (top - page - x) % WORD == 0
    requires -0x8000_0000 <= s < 0x8000_0000 && (s - x) % 0x1_0000_0000 == 0 && s % 0x1000 == 0
    ensures (page + s) % WORD % 0x1000 == 0 && ((page + s) % WORD == top <==> s == x)
    ensures ((page + s) % WORD - top) % 0x1_0000_0000 == 0
  {
    var m := (top - page - x) / WORD;
    assert top - page == x + m * WORD;
    var k := (s - x) / 0x1_0000_0000;
    assert s == x + k * 0x1_0000_0000;
    var q := (page + s) / WORD;
    assert (page + s) % WORD == page + s - q * WORD;
    assert (page + s) % WORD - top == k * 0x1_0000_0000 - (m + q) * WORD;
    assert (page + s) % WORD - top == (k - (m + q) * 0x1_0000_0000) * 0x1_0000_0000;
  }

  // ------------------------------------------------------------ the moves, part by part

  // After i parts.  With optimize: nothing yet, and nothing below is set, or the low parts are
  // loaded.  Without it: the low parts are blended into whatever was there.
  ghost predicate PartsDone(insts: seq<Inst>, pc: nat, rd: Reg, imm: nat, i: nat, optimize: bool, useMovz: bool) {
    if optimize then
      if useMovz then insts == [] && LowParts(imm, i) == 0 else Loads(insts, pc, rd, LowParts(imm, i))
    else useMovz && Blends(insts, pc, rd, imm, i)
  }

  ghost predicate Blends(insts: seq<Inst>, pc: nat, rd: Reg, imm: nat, i: nat) {
    rd.num < 31 && forall c: Core :: IsCore(c) && c.pc == pc ==>
      Run(c, insts) == After(c, rd.num, Blend(rd.wide, c.x[rd.num], imm, i), |insts|)
  }

  function Parts(rd: Reg): nat { if rd.wide then 4 else 2 }

  lemma LowPartsFit(rd: Reg, imm: nat, i: nat)
    requires i <= Parts(rd)
    ensures Sized(rd.wide, LowParts(imm, i)) == LowParts(imm, i)
  {}

  lemma FirstPart(pc: nat, rd: Reg, imm: nat, i: nat)
    requires rd.num < 31 && pc < WORD && i < Parts(rd) && LowParts(imm, i) == 0
    ensures Loads([MoveWide(rd.wide, 2, i, HwOf(imm, i), rd.num)], pc, rd, LowParts(imm, i + 1))
  {
    NextPart(imm, i);
    LowPartsFit(rd, imm, i + 1);
    LoadsOne(pc, rd, MoveWide(rd.wide, 2, i, HwOf(imm, i), rd.num), LowParts(imm, i + 1));
  }

  lemma MorePart(insts: seq<Inst>, pc: nat, rd: Reg, imm: nat, i: nat)
    requires rd.num < 31 && i < Parts(rd) && Loads(insts, pc, rd, LowParts(imm, i))
    ensures Loads(insts + [MoveWide(rd.wide, 3, i, HwOf(imm, i), rd.num)], pc, rd, LowParts(imm, i + 1))
  {
    KeepFresh(LowParts(imm, i), imm, i);
    LowPartsFit(rd, imm, i + 1);
    LoadsSnoc(insts, pc, rd, LowParts(imm, i), MoveWide(rd.wide, 3, i, HwOf(imm, i), rd.num), LowParts(imm, i + 1));
  }

  lemma BlendPart(insts: seq<Inst>, pc: nat, rd: Reg, imm: nat, i: nat)
    requires rd.num < 31 && i < Parts(rd) && Blends(insts, pc, rd, imm, i)
    ensures Blends(insts + [MoveWide(rd.wide, 3, i, HwOf(imm, i), rd.num)], pc, rd, imm, i + 1)
  {
    var inst := MoveWide(rd.wide, 3, i, HwOf(imm, i), rd.num);
    forall c: Core | IsCore(c) && c.pc == pc
      ensures Run(c, insts + [inst]) == After(c, rd.num, Blend(rd.wide, c.x[rd.num], imm, i + 1), |insts| + 1)
    {
      KeepBlend(rd.wide, c.x[rd.num], imm, i);
      StepAfter(c, insts, Run(c, insts), rd.num, Blend(rd.wide, c.x[rd.num], imm, i), inst,
        Blend(rd.wide, c.x[rd.num], imm, i + 1));
    }
  }

  lemma PartsBegin(pc: nat, rd: Reg, imm: nat, optimize: bool)
    requires rd.num < 31
    ensures PartsDone([], pc, rd, imm, 0, optimize, true)
  {
    forall c: Core | IsCore(c) && c.pc == pc
      ensures Run(c, []) == After(c, rd.num, Blend(rd.wide, c.x[rd.num], imm, 0), 0)
    {
      NothingRun(c, rd.num);
    }
  }

  // The instruction of one part, if any.
  function PartInsts(rd: Reg, imm: nat, i: nat, upload: bool, optimize: bool, useMovz: bool): seq<Inst> {
    if useMovz && upload then [MoveWide(rd.wide, 2, i, HwOf(imm, i), rd.num)]
    else if upload || !optimize then [MoveWide(rd.wide, 3, i, HwOf(imm, i), rd.num)]
    else []
  }

  lemma PartStep(insts: seq<Inst>, pc: nat, rd: Reg, imm: nat, i: nat, optimize: bool, useMovz: bool, upload: bool)
    requires rd.num < 31 && pc < WORD && i < Parts(rd) && (upload <==> optimize && HwOf(imm, i) != 0)
    requires PartsDone(insts, pc, rd, imm, i, optimize, useMovz)
    ensures PartsDone(insts + PartInsts(rd, imm, i, upload, optimize, useMovz), pc, rd, imm, i + 1, optimize,
        useMovz && !upload)
  {
    NextPart(imm, i);
    if !optimize {
      BlendPart(insts, pc, rd, imm, i);
    } else if upload {
      if useMovz {
        FirstPart(pc, rd, imm, i);
        assert insts + PartInsts(rd, imm, i, upload, optimize, useMovz)
            == PartInsts(rd, imm, i, upload, optimize, useMovz);
      } else {
        MorePart(insts, pc, rd, imm, i);
      }
    } else {
      assert insts + [] == insts;
    }
  }

  lemma PartsEnd(insts: seq<Inst>, pc: nat, rd: Reg, imm: nat, optimize: bool, useMovz: bool)
    requires 0 < imm <= Ones(rd.wide) && PartsDone(insts, pc, rd, imm, Parts(rd), optimize, useMovz)
    ensures Loads(insts, pc, rd, imm)
  {
    assert LowParts(imm, Parts(rd)) == imm;
    if !optimize {
      forall c: Core | IsCore(c) && c.pc == pc
        ensures Blend(rd.wide, c.x[rd.num], imm, Parts(rd)) == imm
      {
        BlendEnds(rd.wide, c.x[rd.num], imm);
      }
    }
  }

  lemma BlendEnds(wide: bool, old': nat, imm: nat)
    requires old' < WORD && imm <= Ones(wide)
    ensures Blend(wide, old', imm, if wide then 4 else 2) == imm
  {
    if wide {
      assert LowParts(old', 4) == old' && LowParts(imm, 4) == imm;
    } else {
      KeepNarrow(old', imm);
      assert LowParts(imm, 2) == imm;
    }
  }

  // ------------------------------------------------------------ the short forms

  lemma AdrLoads(pc: nat, rd: Reg, imm: nat)
    requires rd.num < 31 && pc < WORD && imm < WORD
    ensures Loads([PcRelative(false, ToS64(imm - pc), rd.num)], pc, rd, imm)
  {
    assert (pc + ToS64(imm - pc)) % WORD == imm;
    LoadsOne(pc, rd, PcRelative(false, ToS64(imm - pc), rd.num), imm);
  }

  lemma AdrpLoads(pc: nat, rd: Reg, imm: nat)
    requires rd.num < 31 && pc < WORD && imm < WORD
    ensures PageValue(imm, pc) >= imm % 0x1000
    ensures Loads([PcRelative(true, Distance(imm, pc) / 0x1000, rd.num)], pc, rd, PageValue(imm, pc) - imm % 0x1000)
  {
    PageValueIs(imm, pc);
    AdrpEffect(pc, rd, Distance(imm, pc));
  }

  lemma AdrpEffect(pc: nat, rd: Reg, d: int)
    requires rd.num < 31 && pc < WORD && d % 0x1000 == 0
    ensures Loads([PcRelative(true, d / 0x1000, rd.num)], pc, rd, (Page(pc) + d) % WORD)
  {
    LoadsOne(pc, rd, PcRelative(true, d / 0x1000, rd.num), (Page(pc) + d) % WORD);
  }

  lemma AddLoads(insts: seq<Inst>, pc: nat, rd: Reg, v: nat, imm12: nat)
    requires rd.num < 31 && Loads(insts, pc, rd, v)
    ensures Loads(insts + [AddImmediate(rd.wide, 0, imm12, rd.num, rd.num)], pc, rd, Sized(rd.wide, v + imm12))
  {
    LoadsSnoc(insts, pc, rd, v, AddImmediate(rd.wide, 0, imm12, rd.num, rd.num), Sized(rd.wide, v + imm12));
  }

  lemma AdrpAddLoads(pc: nat, rd: Reg, imm: nat)
    requires rd.num < 31 && pc < WORD && imm < WORD
    ensures Loads([PcRelative(true, Distance(imm, pc) / 0x1000, rd.num)]
        + [AddImmediate(rd.wide, 0, imm % 0x1000, rd.num, rd.num)],
                  pc, rd, Sized(rd.wide, PageValue(imm, pc)))
  {
    AdrpLoads(pc, rd, imm);
    var v := PageValue(imm, pc) - imm % 0x1000;
    AddLoads([PcRelative(true, Distance(imm, pc) / 0x1000, rd.num)], pc, rd, v, imm % 0x1000);
  }

  // What the page forms leave in rd, and when it is the immediate.
  function PageResult(rd: Reg, imm: nat, pc: nat): nat {
    if imm % 0x1000 == 0 then PageValue(imm, pc) % WORD else Sized(rd.wide, PageValue(imm, pc))
  }

  lemma WholePageLoads(pc: nat, rd: Reg, imm: nat)
    requires rd.num < 31 && pc < WORD && imm < WORD && imm % 0x1000 == 0
    ensures Distance(imm, pc) == ToS32(AlignedOffset(imm, pc)) && InS32(Distance(imm, pc))
        && Distance(imm, pc) % 0x1000 == 0
    ensures Loads([PcRelative(true, Distance(imm, pc) / 0x1000, rd.num)], pc, rd, PageResult(rd, imm, pc))
  {
    AlignedIs(imm, pc);
    PageValueIs(imm, pc);
    AdrpLoads(pc, rd, imm);
    assert PageResult(rd, imm, pc) == PageValue(imm, pc);
  }

  lemma PageResultIs(rd: Reg, imm: nat, pc: nat)
    requires imm <= Ones(rd.wide) && pc < WORD
    ensures PageResult(rd, imm, pc) == imm <==> InS32(AlignedOffset(imm, pc)) || (!rd.wide && imm % 0x1000 != 0)
    ensures PageResult(rd, imm, pc) % 0x1_0000_0000 == imm % 0x1_0000_0000
  {
    PageValueIs(imm, pc);
    SizedIs(rd, imm, PageValue(imm, pc));
  }

  lemma SizedIs(rd: Reg, imm: nat, v: nat)
    requires imm <= Ones(rd.wide) && v < WORD && v % 0x1_0000_0000 == imm % 0x1_0000_0000
    ensures Sized(rd.wide, v) == imm <==> v == imm || !rd.wide
    ensures Sized(rd.wide, v) % 0x1_0000_0000 == imm % 0x1_0000_0000
  {}

  // The distance does not survive the cast to 32 bits, and no narrow ADD hides it.
  predicate Overshoots(rd: Reg, imm: nat, pc: nat, optimize: bool) {
    UsesPage(rd, imm, pc, optimize) && !InS32(AlignedOffset(imm, pc)) && (rd.wide || imm % 0x1000 == 0)
  }

  // The casts do lose distances: two parts, less than 4 GB away, but more than 2 GB.
  lemma FarPageMissed()
    ensures Overshoots(Reg(true, 0), 0x9000_1000, 0, true)
  {
    assert HwOf(0x9000_1000, 0) == 0x1000 && HwOf(0x9000_1000, 1) == 0x9000;
    assert {0, 1} <= NonZeroParts(0x9000_1000, 4);
    SubsetSize({0, 1}, NonZeroParts(0x9000_1000, 4));
  }

  lemma SubsetSize(a: set<nat>, b: set<nat>)
    requires a <= b
    ensures |a| <= |b|
  {
    assert b == a + (b - a);
  }

  lemma NotLow(imm: nat)
    requires imm <= 0xFFFF_FFFF
    ensures Not(imm) % 0x1_0000_0000 == 0xFFFF_FFFF - imm
  {
    ModUnique(Not(imm), 0x1_0000_0000, 0xFFFF_FFFF, 0xFFFF_FFFF - imm);
  }

  lemma MovnLoads(pc: nat, rd: Reg, imm: nat)
    requires rd.num < 31 && pc < WORD && !rd.wide && imm <= Ones(false) && Or(imm, 0xFFFF_0000) == imm
    ensures Not(imm) % 0x1_0000_0000 < 0x1_0000
    ensures Loads([MoveWide(false, 0, 0, Not(imm) % 0x1_0000_0000, rd.num)], pc, rd, imm)
  {
    OrAtLeast(imm, 0xFFFF_0000);
    var low := 0xFFFF_FFFF - imm;
    NotLow(imm);
    LoadsOne(pc, rd, MoveWide(false, 0, 0, low, rd.num), imm);
  }

  // ------------------------------------------------------------ the emitter

  const ZR := 31

  class Emitter {
    const start: nat
    var code: seq<nat>

    constructor (start: nat)
      ensures this.start == start && code == []
    {
      this.start := start;
      code := [];
    }

    function GetCodePtr(): nat
      reads this
    {
      start + 4 * |code|
    }

    ghost function Insts(): seq<Inst>
      reads this
    {
      DecodeAll(code)
    }

    method Write32(w: nat)
      modifies this
      ensures Insts() == old(Insts()) + [Decode(w)]
    {
      DecodeSnoc(code, w);
      code := code + [w];
    }

    method MOVZ(rd: Reg, imm: nat, pos: nat)
      requires IsReg(rd) && imm < 0x1_0000 && pos < 4
      modifies this
      ensures Insts() == old(Insts()) + [MoveWide(rd.wide, 2, pos, imm, rd.num)]
    {
      DecodeMoveWide(2, rd, imm, pos);
      Write32(EncodeMOVWideInst(2, rd, imm, pos));
    }

    method MOVN(rd: Reg, imm: nat, pos: nat)
      requires IsReg(rd) && imm < 0x1_0000 && pos < 4
      modifies this
      ensures Insts() == old(Insts()) + [MoveWide(rd.wide, 0, pos, imm, rd.num)]
    {
      DecodeMoveWide(0, rd, imm, pos);
      Write32(EncodeMOVWideInst(0, rd, imm, pos));
    }

    method MOVK(rd: Reg, imm: nat, pos: nat)
      requires IsReg(rd) && imm < 0x1_0000 && pos < 4
      modifies this
      ensures Insts() == old(Insts()) + [MoveWide(rd.wide, 3, pos, imm, rd.num)]
    {
      DecodeMoveWide(3, rd, imm, pos);
      Write32(EncodeMOVWideInst(3, rd, imm, pos));
    }

    method ORN(rd: Reg, rn: Reg, rm: Reg)
      requires IsReg(rd) && IsReg(rn) && IsReg(rm)
      modifies this
      ensures Insts() == old(Insts()) + [OrNot(rd.wide, 0, rm.num, 0, rn.num, rd.num)]
    {
      DecodeOrn(rd, rn, rm);
      Write32(EncodeLogicalInst(1, 1, rd, rn, rm));
    }

    method ADD(rd: Reg, rn: Reg, imm: nat)
      requires IsReg(rd) && IsReg(rn) && imm < 0x1000
      modifies this
      ensures Insts() == old(Insts()) + [AddImmediate(rd.wide, 0, imm, rn.num, rd.num)]
    {
      DecodeAdd(rd, rn, imm);
      Write32(EncodeAddSubImmInst(0, false, 0, imm, rn, rd));
    }

    method ADR(rd: Reg, imm: int)
      requires IsReg(rd) && -0x10_0000 <= imm < 0x10_0000
      modifies this
      ensures Insts() == old(Insts()) + [PcRelative(false, imm, rd.num)]
    {
      DecodeAddress(0, rd, imm);
      Write32(EncodeAddressInst(0, rd, imm));
    }

    // imm is an s32.
    method ADRP(rd: Reg, imm: int)
      requires IsReg(rd) && InS32(imm)
      modifies this
      ensures Insts() == old(Insts()) + [PcRelative(true, imm / 0x1000, rd.num)]
    {
      DecodeAddress(1, rd, imm / 0x1000);
      Write32(EncodeAddressInst(1, rd, imm / 0x1000));
    }

    // The parts, lowest first.
    method MoveParts(rd: Reg, imm: nat, uploadPart: set<nat>, optimize: bool) returns (ghost insts: seq<Inst>)
      requires rd.num < 31 && GetCodePtr() < WORD && 0 < imm <= Ones(rd.wide)
      requires uploadPart == if optimize then NonZeroParts(imm, Parts(rd)) else {}
      modifies this
      ensures Insts() == old(Insts()) + insts && Loads(insts, old(GetCodePtr()), rd, imm)
    {
      var parts := if rd.wide then 4 else 2;
      var useMovz := true;
      ghost var pc := GetCodePtr();
      insts := [];
      PartsBegin(pc, rd, imm, optimize);
      var i := 0;
      while i < parts
        invariant i <= parts && Insts() == old(Insts()) + insts
        invariant PartsDone(insts, pc, rd, imm, i, optimize, useMovz) == true
      {
        PartStep(insts, pc, rd, imm, i, optimize, useMovz, i in uploadPart);
        insts := insts + PartInsts(rd, imm, i, i in uploadPart, optimize, useMovz);
        useMovz := MovePart(rd, imm, i, i in uploadPart, optimize, useMovz);
        i := i + 1;
      }
      PartsEnd(insts, pc, rd, imm, optimize, useMovz);
    }

    // One turn of the loop.
    method MovePart(rd: Reg, imm: nat, i: nat, upload: bool, optimize: bool, useMovz: bool) returns (useMovz': bool)
      requires IsReg(rd) && i < 4
      modifies this
      ensures Insts() == old(Insts()) + PartInsts(rd, imm, i, upload, optimize, useMovz)
      ensures useMovz' == (useMovz && !upload)
    {
      useMovz' := useMovz;
      NextPart(imm, i);
      if useMovz && upload {
        MOVZ(rd, HwOf(imm, i), i);
        useMovz' := false;
      } else if upload || !optimize {
        MOVK(rd, HwOf(imm, i), i);
      }
    }

    // An immediate near the code, from the program counter.
    method MoveAddress(rd: Reg, imm: nat) returns (ghost insts: seq<Inst>, ghost v: nat)
      requires rd.num < 31 && GetCodePtr() < WORD && imm <= Ones(rd.wide)
      modifies this
      ensures Insts() == old(Insts()) + insts && Loads(insts, old(GetCodePtr()), rd, v)
      ensures if !PageAligned(imm, old(GetCodePtr())) && -0xF_FFFF <= ToS64(imm - old(GetCodePtr())) <= 0xF_FFFF
              then v == imm else v == PageResult(rd, imm, old(GetCodePtr()))
    {
      var pc := GetCodePtr();
      var alignedOffset := AlignedOffset(imm, pc);
      AlignedIs(imm, pc);
      v := PageResult(rd, imm, pc);
      if Abs64(alignedOffset) % 0x1000 == 0 {
        insts := MoveWholePage(rd, imm, alignedOffset);
      } else {
        var offset := ToS64(imm - pc);
        if -0xF_FFFF <= offset <= 0xF_FFFF {
          AdrLoads(pc, rd, imm);
          ADR(rd, offset);
          insts, v := [PcRelative(false, offset, rd.num)], imm;
        } else {
          insts := MovePage(rd, imm, alignedOffset);
        }
      }
    }

    // The start of a page.
    method MoveWholePage(rd: Reg, imm: nat, alignedOffset: int) returns (ghost insts: seq<Inst>)
      requires rd.num < 31 && GetCodePtr() < WORD && imm <= Ones(rd.wide) && imm % 0x1000 == 0
      requires alignedOffset == AlignedOffset(imm, GetCodePtr())
      modifies this
      ensures Insts() == old(Insts()) + insts
          && Loads(insts, old(GetCodePtr()), rd, PageResult(rd, imm, old(GetCodePtr())))
    {
      ghost var pc := GetCodePtr();
      WholePageLoads(pc, rd, imm);
      ADRP(rd, ToS32(alignedOffset));
      insts := [PcRelative(true, Distance(imm, pc) / 0x1000, rd.num)];
    }

    // The page, and the place on it.
    method MovePage(rd: Reg, imm: nat, alignedOffset: int) returns (ghost insts: seq<Inst>)
      requires rd.num < 31 && GetCodePtr() < WORD && imm <= Ones(rd.wide) && imm % 0x1000 != 0
      requires alignedOffset == AlignedOffset(imm, GetCodePtr())
      modifies this
      ensures Insts() == old(Insts()) + insts
          && Loads(insts, old(GetCodePtr()), rd, PageResult(rd, imm, old(GetCodePtr())))
    {
      ghost var pc := GetCodePtr();
      PageValueIs(imm, pc);
      AdrpAddLoads(pc, rd, imm);
      ADRP(rd, ToS32(alignedOffset - alignedOffset % 0x1000));
      ADD(rd, rd, imm % 0x1000);
      insts := [PcRelative(true, Distance(imm, pc) / 0x1000, rd.num)]
        + [AddImmediate(rd.wide, 0, imm % 0x1000, rd.num, rd.num)];
    }

    // The emitted instructions leave the immediate in rd, whatever the registers held before,
    // exactly when no distance is cut short; the low 32 bits are right in any case.
    method MOVI2R(rd: Reg, imm: nat, optimize: bool) returns (ghost insts: seq<Inst>, ghost v: nat)
      requires rd.num < 31 && imm <= Ones(rd.wide) && GetCodePtr() < WORD
      modifies this
      ensures Insts() == old(Insts()) + insts && Loads(insts, old(GetCodePtr()), rd, v)
      ensures v == imm <==> !Overshoots(rd, imm, old(GetCodePtr()), optimize)
      ensures v % 0x1_0000_0000 == imm % 0x1_0000_0000
    {
      ghost var pc := GetCodePtr();
      v := imm;
      if imm == 0 {
        MOVZ(rd, 0, 0);
        insts := [MoveWide(rd.wide, 2, 0, 0, rd.num)];
        LoadsOne(pc, rd, insts[0], 0);
        return;
      }
      if imm == Ones(rd.wide) {
        ORN(rd, Reg(rd.wide, ZR), Reg(rd.wide, ZR));
        insts := [OrNot(rd.wide, 0, ZR, 0, ZR, rd.num)];
        LoadsOne(pc, rd, insts[0], imm);
        return;
      }
      if !rd.wide && Or(imm, 0xFFFF_0000) == imm {
        MovnLoads(pc, rd, imm);
        MOVN(rd, Not(imm) % 0x1_0000_0000, 0);
        insts := [MoveWide(false, 0, 0, Not(imm) % 0x1_0000_0000, rd.num)];
        return;
      }
      var uploadPart := UploadParts(imm, if rd.wide then 4 else 2, optimize);
      if |uploadPart| > 1 && Abs64(AlignedOffset(imm, GetCodePtr())) < 0xFFFF_FFFF {
        AlignedIs(imm, pc);
        PageResultIs(rd, imm, pc);
        insts, v := MoveAddress(rd, imm);
        return;
      }
      insts := MoveParts(rd, imm, uploadPart, optimize);
    }

    method UploadParts(imm: nat, parts: nat, optimize: bool) returns (uploadPart: set<nat>)
      ensures uploadPart == if optimize then NonZeroParts(imm, parts) else {}
    {
      uploadPart := {};
      if optimize {
        var i := 0;
        while i < parts
          invariant i <= parts && uploadPart == NonZeroParts(imm, i)
        {
          if HwOf(imm, i) != 0 { uploadPart := uploadPart + {i}; }
          i := i + 1;
        }
      }
    }
  }
}
