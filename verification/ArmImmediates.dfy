/** TryMakeOperand2 and its variants of Common/ArmEmitter.cpp, against the modified immediate
    constants of the ARM Architecture Reference Manual, ARMv7-A and ARMv7-R edition, section
    A5.2.4. */
module ArmImmediates {
  import opened Words

  const TWO32 := 0x1_0000_0000

  // 0 < n < 32 unless nothing is rotated, as in the source.
  function RotR(a: nat, n: nat): nat
    requires n < 32
  {
    if n == 0 then a else Or(Shr(a, n), a * Pow2(32 - n) % TWO32)
  }

  function RotL(a: nat, n: nat): nat
    requires n < 32
  {
    if n == 0 then a else Or(a * Pow2(n) % TWO32, Shr(a, 32 - n))
  }

  // ARMExpandImm: an 8-bit value rotated right by twice the 4-bit rotation.
  function Expand(imm8: nat, rotation: nat): nat
    requires rotation < 16
  {
    RotR(imm8, 2 * rotation)
  }

  function Complement(v: nat): nat
    requires v < TWO32
  {
    TWO32 - 1 - v
  }

  // Two's complement negation.
  function Negate(v: nat): nat
    requires v < TWO32
  {
    (TWO32 - v) % TWO32
  }

  // ------------------------------------------------------------ rotation, bit by bit

  lemma Pow32()
    ensures Pow2(32) == TWO32
  {
    WordPowers();
  }

  lemma BitShlWord(a: nat, n: nat, i: nat)
    requires i < 32
    ensures Bit(a * Pow2(n) % TWO32, i) <==> i >= n && Bit(a, i - n)
  {
    Pow32();
    BitMod(a * Pow2(n), 32, i);
    BitTimes(a, n, i);
  }

  lemma Fits(a: nat, n: nat)
    requires a < TWO32 && n < 32
    ensures RotR(a, n) < TWO32 && RotL(a, n) < TWO32
  {
    Pow32();
    if n > 0 {
      BitShr(a, n, 0);
      BitShr(a, 32 - n, 0);
      OrFits(Shr(a, n), a * Pow2(32 - n) % TWO32, 32);
      OrFits(a * Pow2(n) % TWO32, Shr(a, 32 - n), 32);
    }
  }

  lemma BitAbove(a: nat, i: nat)
    requires a < TWO32 && i >= 32
    ensures !Bit(a, i)
  {
    Pow32();
    BitBelow(a, 32, i);
  }

  lemma RotRBit(a: nat, n: nat, i: nat)
    requires a < TWO32 && n < 32 && i < 32
    ensures Bit(RotR(a, n), i) <==> Bit(a, if i + n < 32 then i + n else i + n - 32)
  {
    if n > 0 {
      BitOr(Shr(a, n), a * Pow2(32 - n) % TWO32, i);
      BitShr(a, n, i);
      BitShlWord(a, 32 - n, i);
      if i + n >= 32 { BitAbove(a, i + n); }
    }
  }

  lemma RotLBit(a: nat, n: nat, i: nat)
    requires a < TWO32 && n < 32 && i < 32
    ensures Bit(RotL(a, n), i) <==> Bit(a, if i < n then i + 32 - n else i - n)
  {
    if n > 0 {
      BitOr(a * Pow2(n) % TWO32, Shr(a, 32 - n), i);
      BitShr(a, 32 - n, i);
      BitShlWord(a, n, i);
      if i >= n { BitAbove(a, i + (32 - n)); }
    }
  }

  lemma SameWord(a: nat, b: nat)
    requires a < TWO32 && b < TWO32 && forall i: nat :: i < 32 ==> (Bit(a, i) <==> Bit(b, i))
    ensures a == b
  {
    Pow32();
    SameBits(a, b, 32);
  }

  lemma RotateBack(a: nat, n: nat)
    requires a < TWO32 && n < 32
    ensures RotL(a, n) < TWO32 && RotR(RotL(a, n), n) == a
  {
    Fits(a, n);
    var b := RotL(a, n);
    Fits(b, n);
    forall i: nat | i < 32
      ensures Bit(RotR(b, n), i) <==> Bit(a, i)
    {
      RotRBit(b, n, i);
      RotLBit(a, n, if i + n < 32 then i + n else i + n - 32);
    }
    SameWord(RotR(b, n), a);
  }

  // ------------------------------------------------------------ the search

  lemma LowByteBits(i: nat)
    ensures Bit(0xFF, i) <==> i < 8
  {
    WordPowers();
    BitRun(0, 8, i);
    SmallPowers();
  }

  lemma ByteFromBits(v: nat)
    requires v < TWO32 && forall i: nat :: 8 <= i < 32 ==> !Bit(v, i)
    ensures v < 0x100
  {
    WordPowers();
    var low := v % 0x100;
    forall i: nat | i < 32
      ensures Bit(v, i) <==> Bit(low, i)
    {
      if i < 8 { BitMod(v, 8, i); } else { BitBelow(low, 8, i); }
    }
    SameWord(v, low);
  }

  // The test of the source for rotation i, and the byte it takes.
  predicate Covered(imm: nat, i: nat)
    requires i < 16
  {
    And(imm, RotR(0xFF, 2 * i)) == imm
  }

  lemma CoveredIsExpanded(imm: nat, i: nat)
    requires imm < TWO32 && i < 16 && Covered(imm, i)
    ensures RotL(imm, 2 * i) < 0x100 && Expand(RotL(imm, 2 * i), i) == imm
  {
    var n := 2 * i;
    var v := RotL(imm, n);
    RotateBack(imm, n);
    forall k: nat | 8 <= k < 32
      ensures !Bit(v, k)
    {
      var j := if k < n then k + 32 - n else k - n;
      RotLBit(imm, n, k);
      BitAnd(imm, RotR(0xFF, n), j);
      RotRBit(0xFF, n, j);
      LowByteBits(k);
    }
    ByteFromBits(v);
  }

  lemma ExpandedIsCovered(imm8: nat, i: nat)
    requires imm8 < 0x100 && i < 16
    ensures Expand(imm8, i) < TWO32 && Covered(Expand(imm8, i), i)
  {
    var n := 2 * i;
    var imm, mask := RotR(imm8, n), RotR(0xFF, n);
    Fits(imm8, n);
    AndFits(imm, mask);
    forall j: nat | j < 32
      ensures Bit(And(imm, mask), j) <==> Bit(imm, j)
    {
      BitAnd(imm, mask, j);
      RotRBit(imm8, n, j);
      RotRBit(0xFF, n, j);
      var k := if j + n < 32 then j + n else j + n - 32;
      LowByteBits(k);
      WordPowers();
      if k >= 8 { BitBelow(imm8, 8, k); }
    }
    SameWord(And(imm, mask), imm);
  }

  datatype Operand2 = Imm(imm8: nat, rotation: nat) | Reg(reg: nat)

  ghost predicate IsImm(op2: Operand2) { op2.Imm? && op2.imm8 < 0x100 && op2.rotation < 16 }

  ghost predicate Encodable(imm: nat) { exists imm8: nat, i: nat :: imm8 < 0x100 && i < 16 && Expand(imm8, i) == imm }

  lemma Found(imm: nat, i: nat)
    requires imm < TWO32 && i < 16 && Covered(imm, i)
    ensures Encodable(imm) && IsImm(Imm(RotL(imm, i * 2), i)) && Expand(RotL(imm, i * 2), i) == imm
  {
    CoveredIsExpanded(imm, i);
  }

  lemma NotFound(imm: nat)
    requires forall j: nat :: j < 16 ==> !Covered(imm, j)
    ensures !Encodable(imm)
  {
    if Encodable(imm) {
      var imm8: nat, j: nat :| imm8 < 0x100 && j < 16 && Expand(imm8, j) == imm;
      ExpandedIsCovered(imm8, j);
      assert false;
    }
  }

  // Succeeds exactly for the modified immediates.
  method TryMakeOperand2(imm: nat) returns (ok: bool, op2: Operand2)
    requires imm < TWO32
    ensures ok <==> Encodable(imm)
    ensures ok ==> IsImm(op2) && Expand(op2.imm8, op2.rotation) == imm
  {
    op2 := Imm(0, 0);
    var i := 0;
    while i < 16
      invariant i <= 16 && forall j: nat :: j < i ==> !Covered(imm, j)
    {
      var mask := RotR(0xFF, i * 2);
      if And(imm, mask) == imm {
        Found(imm, i);
        op2 := Imm(RotL(imm, i * 2), i);
        return true, op2;
      }
      i := i + 1;
    }
    NotFound(imm);
    ok := false;
  }

  method TryMakeOperand2_AllowInverse(imm: nat) returns (ok: bool, op2: Operand2, inverse: bool)
    requires imm < TWO32
    ensures ok <==> Encodable(imm) || Encodable(Complement(imm))
    ensures inverse <==> !Encodable(imm)
    ensures ok ==> IsImm(op2) && Expand(op2.imm8, op2.rotation) == if inverse then Complement(imm) else imm
  {
    ok, op2 := TryMakeOperand2(imm);
    inverse := !ok;
    if !ok { ok, op2 := TryMakeOperand2(Complement(imm)); }
  }

  method TryMakeOperand2_AllowNegation(imm: nat) returns (ok: bool, op2: Operand2, negated: bool)
    requires imm < TWO32
    ensures ok <==> Encodable(imm) || Encodable(Negate(imm))
    ensures negated <==> !Encodable(imm)
    ensures ok ==> IsImm(op2) && Expand(op2.imm8, op2.rotation) == if negated then Negate(imm) else imm
  {
    ok, op2 := TryMakeOperand2(imm);
    negated := !ok;
    if !ok { ok, op2 := TryMakeOperand2(Negate(imm)); }
  }
}
