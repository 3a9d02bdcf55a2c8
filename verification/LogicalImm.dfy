/** IsImmLogical and CountLeadingZeros of Common/Arm64Emitter.cpp, against DecodeBitMasks of the
    Arm Architecture Reference Manual for A-profile (chapter J1). */
module LogicalImm {
  import opened Words

  // ------------------------------------------------------------ the reference decoder

  // The element size an encoding selects: 2^HighestSetBit(N:NOT(imms)); 0 when there is none.
  function ElementSize(n: nat, imms: nat): nat {
    if n == 1 then 64
    else if imms < 32 then 32
    else if imms < 48 then 16
    else if imms < 56 then 8
    else if imms < 60 then 4
    else if imms < 62 then 2
    else 0
  }

  // Bit i of an element of e bits: S + 1 ones rotated right by R.
  predicate ElementBit(e: nat, s: nat, r: nat, i: nat)
    requires e > 0
  {
    (i + r) % e <= s
  }

  // DecodeBitMasks(n, imms, immr) in a register of `width` bits is defined and is `value`; N = 1 is
  // reserved in a 32-bit register.
  ghost predicate Decodes(width: nat, n: nat, imms: nat, immr: nat, value: nat) {
    && n < 2 && imms < 64 && immr < 64 && (width == 32 ==> n == 0)
    && var e := ElementSize(n, imms);
    && e > 0 && imms % e != e - 1
    && value < Pow2(width)
    && forall i: nat :: i < width ==> (Bit(value, i) <==> ElementBit(e, imms % e, immr % e, i))
  }

  // ------------------------------------------------------------ one run of ones per element

  predicate IsSize(e: nat) { e == 2 || e == 4 || e == 8 || e == 16 || e == 32 || e == 64 }

  // Ones in positions p to m - 1 of every e bits, never in position 0.
  ghost predicate Striped(v: nat, e: nat, p: nat, m: nat) {
    && IsSize(e) && 1 <= p < m <= e && v < WORD
    && forall i: nat :: i < 64 ==> (Bit(v, i) <==> p <= i % e < m)
  }

  ghost predicate Unstriped(v: nat) { forall e, p, m :: !Striped(v, e, p, m) }

  // x repeated every d bits, as the multiplication builds it.
  function Multiplier(d: nat): nat
    requires IsSize(d)
  {
    if d == 64 then 0x1
    else if d == 32 then 0x1_0000_0001
    else if d == 16 then 0x1_0001_0001_0001
    else if d == 8 then 0x101_0101_0101_0101
    else if d == 4 then 0x1111_1111_1111_1111
    else 0x5555_5555_5555_5555
  }

  // x times the multiplier.
  function Repeated(x: nat, d: nat): nat
    requires IsSize(d)
  {
    if d == 64 then x
    else if d == 32 then x * 0x1_0000_0001
    else if d == 16 then x * 0x1_0001_0001_0001
    else if d == 8 then x * 0x101_0101_0101_0101
    else if d == 4 then x * 0x1111_1111_1111_1111
    else x * 0x5555_5555_5555_5555
  }

  lemma MultipliedIs(x: nat, d: nat, multiplier: nat)
    requires IsSize(d) && multiplier == Multiplier(d)
    ensures x * multiplier == Repeated(x, d)
  {}

  // The bits of x + y * 2^e for x below 2^e.
  lemma {:induction false} BitConcat(x: nat, y: nat, e: nat, i: nat)
    requires x < Pow2(e)
    ensures Bit(x + y * Pow2(e), i) <==> if i < e then Bit(x, i) else Bit(y, i - e)
  {
    if e > 0 {
      assert x + y * Pow2(e) == x + 2 * (y * Pow2(e - 1));
      assert (x + y * Pow2(e)) / 2 == x / 2 + y * Pow2(e - 1);
      if i > 0 { BitConcat(x / 2, y, e - 1, i - 1); }
    } else {
      assert y * Pow2(0) == y;
    }
  }

  function Twice(x: nat, d: nat): nat { x + x * Pow2(d) }

  lemma TwiceFits(x: nat, d: nat)
    requires IsSize(d) && d < 64 && x < Pow2(d)
    ensures Twice(x, d) < Pow2(2 * d)
  {
    SmallPowers();
    WordPowers();
  }

  lemma DoubleMultiplier(x: nat, d: nat)
    requires IsSize(d) && d < 64
    ensures IsSize(2 * d) && Repeated(Twice(x, d), 2 * d) == Repeated(x, d)
  {
    SmallPowers();
    WordPowers();
  }

  lemma HalfIndex(d: nat, i: nat)
    requires IsSize(d) && d < 64 && i < 64
    ensures i % (2 * d) == if i % (2 * d) < d then i % d else i % d + d
  {
    var q, r := i / (2 * d), i % (2 * d);
    if r < d { ModUnique(i, d, 2 * q, r); } else { ModUnique(i, d, 2 * q + 1, r - d); }
  }

  lemma BitTwice(x: nat, d: nat, i: nat, j: nat)
    requires IsSize(d) && d < 64 && x < Pow2(d) && i < 64 && j == i % (2 * d)
    ensures Bit(Twice(x, d), j) <==> Bit(x, i % d)
  {
    BitConcat(x, x, d, j);
    HalfIndex(d, i);
  }

  // The multiplication repeats x every d bits and stays inside the word.
  lemma {:induction false} BitRepeat(x: nat, d: nat, i: nat)
    requires IsSize(d) && x < Pow2(d) && i < 64
    ensures Repeated(x, d) < WORD
    ensures Bit(Repeated(x, d), i) <==> Bit(x, i % d)
    decreases 64 - d
  {
    if d == 64 {
      WordPowers();
    } else {
      TwiceFits(x, d);
      DoubleMultiplier(x, d);
      BitRepeat(Twice(x, d), 2 * d, i);
      BitTwice(x, d, i, i % (2 * d));
    }
  }

  // ------------------------------------------------------------ what an encoding decodes to is striped

  lemma ModAdd(i: nat, r: nat, e: nat)
    requires r < e
    ensures (i + r) % e == if i % e + r < e then i % e + r else i % e + r - e
  {
    if i % e + r < e {
      ModUnique(i + r, e, i / e, i % e + r);
    } else {
      ModUnique(i + r, e, i / e + 1, i % e + r - e);
    }
  }

  lemma StripeOf(e: nat, s: nat, r: nat, i: nat)
    requires IsSize(e) && s < e - 1 && r < e
    ensures s < r ==> (ElementBit(e, s, r, i) <==> e - r <= i % e < e - r + s + 1)
    ensures r <= s ==> (ElementBit(e, s, r, i) <==> !(s + 1 - r <= i % e < e - r))
  {
    ModAdd(i, r, e);
  }

  // IsImmLogical's first two steps: the low bit is cleared by inverting the word, and a 32-bit
  // value is written twice.
  function Normal(value: nat, width: nat): nat
    requires value < WORD
  {
    var v := if value % 2 == 1 then Not(value) else value;
    if width == 32 then Doubled(v) else v
  }

  function Doubled(v: nat): nat { var high := v * 0x1_0000_0000 % WORD; Or(high, high / 0x1_0000_0000) }

  // The value that counts: all of a 64-bit one, the low half for a 32-bit register.
  function Low(value: nat, width: nat): nat { value % Pow2(width) }

  lemma HalvesOr(v: nat)
    requires v < WORD
    ensures var high, low := v * 0x1_0000_0000 % WORD, v % 0x1_0000_0000;
      high == low * 0x1_0000_0000 && Or(high, high / 0x1_0000_0000) == low + low * 0x1_0000_0000 < WORD
  {
    var low := v % 0x1_0000_0000;
    ShiftedUp(v, low);
    WordPowers();
    AndApart(low, low, 32);
    OrDisjoint(low * 0x1_0000_0000, low);
  }

  lemma ShiftedUp(v: nat, low: nat)
    requires low == v % 0x1_0000_0000
    ensures v * 0x1_0000_0000 % WORD == low * 0x1_0000_0000 && low * 0x1_0000_0000 / 0x1_0000_0000 == low
    ensures low * 0x1_0000_0000 + low < WORD
  {}

  lemma {:induction false} AndApart(x: nat, y: nat, k: nat)
    requires y < Pow2(k)
    ensures And(x * Pow2(k), y) == 0
  {
    if k > 0 {
      assert x * Pow2(k) == 2 * (x * Pow2(k - 1));
      AndApart(x, y / 2, k - 1);
    }
  }

  lemma WordBit(value: nat, i: nat)
    requires value < WORD && i < 64
    ensures Bit(if value % 2 == 1 then Not(value) else value, i) <==> (Bit(value, i) != (value % 2 == 1))
  {
    WordPowers();
    BitNot(value, 64, i);
  }

  lemma NormalBits(value: nat, width: nat, i: nat)
    requires value < WORD && (width == 32 || width == 64) && i < 64
    ensures Bit(Normal(value, width), i) <==> (Bit(Low(value, width), i % width) != (value % 2 == 1))
  {
    var v := if value % 2 == 1 then Not(value) else value;
    BitMod(value, width, i % width);
    WordBit(value, i % width);
    NormalIs(value, width, v, i);
  }

  lemma NormalIs(value: nat, width: nat, v: nat, i: nat)
    requires value < WORD && (width == 32 || width == 64) && i < 64 && v == if value % 2 == 1 then Not(value) else value
    ensures Bit(Normal(value, width), i) <==> Bit(v, i % width)
  {
    if width == 32 { TwiceBits(v, i); } else { assert i % 64 == i; }
  }

  lemma NormalFits(value: nat, width: nat)
    requires value < WORD
    ensures Normal(value, width) < WORD
  {
    HalvesOr(if value % 2 == 1 then Not(value) else value);
  }

  lemma TwiceBits(v: nat, i: nat)
    requires v < WORD && i < 64
    ensures Bit(Doubled(v), i) <==> Bit(v, i % 32)
  {
    HalvesOr(v);
    LowTwice(v % 0x1_0000_0000, i);
    BitMod(v, 32, i % 32);
    WordPowers();
  }

  lemma LowTwice(low: nat, i: nat)
    requires low < 0x1_0000_0000 && i < 64
    ensures Bit(low + low * 0x1_0000_0000, i) <==> Bit(low, i % 32)
  {
    WordPowers();
    BitConcat(low, low, 32, i);
    assert i % 32 == if i < 32 then i else i - 32;
  }

  // The stripe an encoding's fields give after normalising.
  function StripeStart(e: nat, s: nat, r: nat): int { if s < r then e - r else s + 1 - r }

  function StripeEnd(e: nat, s: nat, r: nat): int { if s < r then e - r + s + 1 else e - r }

  lemma SizeDivides(e: nat, width: nat, s: nat, r: nat, i: nat)
    requires IsSize(e) && (width == 32 || width == 64) && e <= width && i < 64 && r < e
    ensures ElementBit(e, s, r, i % width) <==> ElementBit(e, s, r, i)
  {
    ModAdd(i, r, e);
    ModAdd(i % width, r, e);
    ModWidth(i, e, width);
  }

  lemma ModWidth(i: nat, e: nat, width: nat)
    requires IsSize(e) && (width == 32 || width == 64) && e <= width && i < 64
    ensures i % width % e == i % e
  {
    if width <= i { ModLess(i, e); } else { assert i % width == i; }
  }

  lemma ModLess(i: nat, e: nat)
    requires IsSize(e) && e <= 32 <= i < 64
    ensures i % 32 % e == i % e
  {
    assert i % 32 == i - 32;
    var k := 32 / e;
    assert e * k == 32;
    ModUnique(i, e, (i - 32) / e + k, (i - 32) % e);
  }

  // The low bit, from the fields.
  lemma LowBit(value: nat, width: nat, e: nat, s: nat, r: nat)
    requires (width == 32 || width == 64) && IsSize(e) && r < e
    requires Bit(Low(value, width), 0) <==> ElementBit(e, s, r, 0)
    ensures value % 2 == 1 <==> r <= s
  {
    BitMod(value, width, 0);
    ModUnique(0 + r, e, 0, r);
  }

  // The normalised word, bit by bit, from the fields.
  lemma NormalFromFields(value: nat, width: nat, e: nat, s: nat, r: nat, i: nat)
    requires value < WORD && (width == 32 || width == 64) && IsSize(e) && e <= width && s < e - 1 && r < e && i < 64
    requires (Bit(Low(value, width), i % width) <==> ElementBit(e, s, r, i % width)) && (value % 2 == 1 <==> r <= s)
    ensures Bit(Normal(value, width), i) <==> StripeStart(e, s, r) <= i % e < StripeEnd(e, s, r)
  {
    NormalBits(value, width, i);
    SizeDivides(e, width, s, r, i);
    StripeOf(e, s, r, i);
  }

  lemma EncodedIsStriped(value: nat, width: nat, n: nat, imms: nat, immr: nat)
    requires value < WORD && (width == 32 || width == 64) && Decodes(width, n, imms, immr, Low(value, width))
    ensures var e := ElementSize(n, imms);
      Striped(Normal(value, width), e, StripeStart(e, imms % e, immr % e), StripeEnd(e, imms % e, immr % e))
  {
    var e := ElementSize(n, imms);
    var s, r := imms % e, immr % e;
    NormalFits(value, width);
    assert Bit(Low(value, width), 0) <==> ElementBit(e, s, r, 0);
    LowBit(value, width, e, s, r);
    forall i: nat | i < 64
      ensures Bit(Normal(value, width), i) <==> StripeStart(e, s, r) <= i % e < StripeEnd(e, s, r)
    {
      assert Bit(Low(value, width), i % width) <==> ElementBit(e, s, r, i % width);
      NormalFromFields(value, width, e, s, r, i);
    }
  }

  // ------------------------------------------------------------ what the analysis finds in a striped word

  function LargestPowerOf2Divisor(value: nat): nat
    requires value < WORD
  {
    And(value, (WORD - value) % WORD)
  }

  lemma LowestBitOf(v: nat)
    requires v < WORD
    ensures LargestPowerOf2Divisor(v) == if v == 0 then 0 else Pow2(Ctz(v))
    ensures v > 0 ==> Ctz(v) < 64
  {
    if v > 0 {
      Pow64();
      AndNegative(v, 64);
      CtzBelow(v, 64);
    }
  }

  lemma StripedFits(v: nat, e: nat, p: nat, m: nat)
    requires Striped(v, e, p, m)
    ensures Pow2(p) < Pow2(m) <= Pow2(e) <= WORD
  {
    Pow64();
    Pow2Grows(p, m);
    if m < e { Pow2Grows(m, e); }
    if e < 64 { Pow2Grows(e, 64); }
  }

  lemma StripedBit(v: nat, e: nat, p: nat, m: nat, i: nat)
    requires Striped(v, e, p, m) && i < 64
    ensures Bit(v, i) <==> p <= i % e < m
    ensures i < e ==> (Bit(v, i) <==> p <= i < m)
    ensures e <= i < 2 * e ==> (Bit(v, i) <==> p <= i - e < m)
  {
    if i < e { ModUnique(i, e, 0, i); } else if i < 2 * e { ModUnique(i, e, 1, i - e); }
  }

  // v is x, an element of d bits, over and over.
  ghost predicate Repeats(v: nat, x: nat, d: nat)
    requires d > 0
  {
    forall i: nat :: i < 64 ==> (Bit(v, i) <==> Bit(x, i % d))
  }

  lemma StripedCtz(v: nat, e: nat, p: nat, m: nat)
    requires Striped(v, e, p, m)
    ensures v > 0 && Ctz(v) == p
  {
    forall i: nat | i <= p
      ensures Bit(v, i) <==> i == p
    {
      assert i % e == i;
    }
    CtzIs(v, p);
  }

  // A word of e bits with one run of ones.
  lemma RunIs(x: nat, e: nat, p: nat, m: nat)
    requires p < m <= e && x < Pow2(e) && forall i: nat :: i < e ==> (Bit(x, i) <==> p <= i < m)
    ensures Pow2(p) < Pow2(m) <= Pow2(e) && x == Pow2(m) - Pow2(p)
  {
    Pow2Grows(p, m);
    if m < e { Pow2Grows(m, e); }
    var run := Pow2(m) - Pow2(p);
    forall i: nat | i < e
      ensures Bit(x, i) <==> Bit(run, i)
    {
      BitRun(p, m, i);
    }
    SameBits(x, run, e);
  }

  // The low e bits of a word whose lowest run is there.
  lemma LowRun(v: nat, e: nat, p: nat, m: nat)
    requires p < m <= e && forall i: nat :: i < e ==> (Bit(v, i) <==> p <= i < m)
    ensures Pow2(p) < Pow2(m) <= Pow2(e) && v % Pow2(e) == Pow2(m) - Pow2(p)
  {
    var x := v % Pow2(e);
    forall i: nat | i < e
      ensures Bit(x, i) <==> Bit(v, i)
    {
      BitMod(v, e, i);
    }
    RunIs(x, e, p, m);
  }

  // A word without its low e bits.
  lemma {:induction false} HighPart(v: nat, e: nat, i: nat)
    ensures v % Pow2(e) <= v && (Bit(v - v % Pow2(e), i) <==> i >= e && Bit(v, i))
  {
    if e == 0 {
      assert v % 1 == 0;
    } else {
      ModHalf(v, Pow2(e - 1));
      var w := v / 2 - v / 2 % Pow2(e - 1);
      HighPart(v / 2, e - 1, if i > 0 then i - 1 else 0);
      assert v - v % Pow2(e) == 2 * w;
    }
  }

  // What is left above the lowest stretch of a word with more than one.
  lemma StripedRest(v: nat, e: nat, p: nat, m: nat)
    requires Striped(v, e, p, m) && e < 64
    ensures Pow2(p) < Pow2(m) && var rest := v - (Pow2(m) - Pow2(p)); rest > 0 && Ctz(rest) == p + e
  {
    forall i: nat | i < e
      ensures Bit(v, i) <==> p <= i < m
    {
      StripedBit(v, e, p, m, i);
    }
    LowRun(v, e, p, m);
    HighPart(v, e, 0);
    var rest := v - v % Pow2(e);
    forall i: nat | i <= p + e
      ensures Bit(rest, i) <==> i == p + e
    {
      HighPart(v, e, i);
      StripedBit(v, e, p, m, i);
    }
    CtzIs(rest, p + e);
  }

  lemma {:induction false} ClearBelowCtz(v: nat, k: nat)
    requires v > 0 && k <= Ctz(v)
    ensures Clear(v, k)
  {
    if k > 0 { ClearBelowCtz(v / 2, k - 1); }
  }

  lemma {:induction false} CtzPow2(k: nat)
    ensures Ctz(Pow2(k)) == k
  {
    if k > 0 { CtzPow2(k - 1); }
  }

  // The word above its lowest stretch of ones, which carries into the bit above it.
  function Carried(v: nat): nat
    requires v < WORD
  {
    (v + LargestPowerOf2Divisor(v)) % WORD
  }

  // The word without its lowest stretch.
  function Remainder(v: nat): nat
    requires v < WORD
  {
    (Carried(v) + WORD - LargestPowerOf2Divisor(Carried(v))) % WORD
  }

  // Where the lowest stretch ends.
  function Stop(v: nat): nat
    requires v < WORD
  {
    if Carried(v) == 0 then 64 else Ctz(Carried(v))
  }

  lemma WordArithmetic(x: nat, y: nat)
    requires y <= x < WORD
    ensures (x + WORD - y) % WORD == x - y && x % WORD == x
  {}

  // The analysis in unbounded arithmetic: w is the word with its lowest stretch carried, 2^64
  // included.
  lemma CarriedIs(v: nat)
    requires 0 < v < WORD
    ensures var p := Ctz(v); var w := v + Pow2(p);
      && p < 64 && w <= WORD && Carried(v) == (if w == WORD then 0 else w) && Pow2(Ctz(w)) <= w
      && Stop(v) == Ctz(w) <= 64 && Remainder(v) == w - Pow2(Ctz(w))
  {
    Pow64();
    LowestBitOf(v);
    CtzBelow(v, 64);
    CtzPow2(64);
    var w := v + Pow2(Ctz(v));
    if w < WORD {
      LowestBitOf(w);
      CtzMoves(w);
      WordArithmetic(w, Pow2(Ctz(w)));
    }
  }

  lemma AnalysisOf(v: nat)
    requires 0 < v < WORD
    ensures Ctz(v) < Stop(v) <= 64 && LargestPowerOf2Divisor(v) == Pow2(Ctz(v))
    ensures LargestPowerOf2Divisor(Carried(v)) == if Stop(v) == 64 then 0 else Pow2(Stop(v))
    ensures Remainder(v) == 0 || Stop(v) < Ctz(Remainder(v)) < 64
    ensures LargestPowerOf2Divisor(Remainder(v)) == if Remainder(v) == 0 then 0 else Pow2(Ctz(Remainder(v)))
  {
    CarriedIs(v);
    CtzMoves(v);
    CtzMoves(v + Pow2(Ctz(v)));
    LowestBitOf(v);
    LowestBitOf(Carried(v));
    LowestBitOf(Remainder(v));
    Pow64();
  }

  // b - a in the code's 64 bits.
  lemma StretchOf(v: nat)
    requires 0 < v < WORD
    ensures Pow2(Ctz(v)) < Pow2(Stop(v)) <= WORD
    ensures (LargestPowerOf2Divisor(Carried(v)) + WORD - LargestPowerOf2Divisor(v)) % WORD
        == Pow2(Stop(v)) - Pow2(Ctz(v))
  {
    AnalysisOf(v);
    Pow2Grows(Ctz(v), Stop(v));
    Pow64();
    if Stop(v) < 64 {
      Pow2Grows(Stop(v), 64);
      WordArithmetic(Pow2(Stop(v)), Pow2(Ctz(v)));
    } else {
      WordArithmetic(WORD - Pow2(Ctz(v)), 0);
    }
  }

  lemma OneRun(v: nat, p: nat, m: nat)
    requires Striped(v, 64, p, m)
    ensures Pow2(p) < Pow2(m) && v == Pow2(m) - Pow2(p)
  {
    forall i: nat | i < 64
      ensures Bit(v, i) <==> p <= i < m
    {
      StripedBit(v, 64, p, m, i);
    }
    Pow64();
    RunIs(v, 64, p, m);
  }

  lemma StripedAnalysis(v: nat, e: nat, p: nat, m: nat)
    requires Striped(v, e, p, m)
    ensures v > 0 && Ctz(v) == p && Stop(v) == m
    ensures if e == 64 then Remainder(v) == 0 else Remainder(v) > 0 && Ctz(Remainder(v)) == p + e
  {
    if e == 64 { OneRunAnalysis(v, p, m); } else { RunsAnalysis(v, e, p, m); }
  }

  lemma OneRunAnalysis(v: nat, p: nat, m: nat)
    requires Striped(v, 64, p, m)
    ensures v > 0 && Ctz(v) == p && Stop(v) == m && Remainder(v) == 0
  {
    StripedCtz(v, 64, p, m);
    CarriedIs(v);
    OneRun(v, p, m);
    CtzPow2(m);
  }

  lemma RunsAnalysis(v: nat, e: nat, p: nat, m: nat)
    requires Striped(v, e, p, m) && e < 64
    ensures v > 0 && Ctz(v) == p && Stop(v) == m && Remainder(v) > 0 && Ctz(Remainder(v)) == p + e
  {
    StripedCtz(v, e, p, m);
    CarriedIs(v);
    StripedRest(v, e, p, m);
    var rest := v - (Pow2(m) - Pow2(p));
    ClearBelowCtz(rest, m + 1);
    CtzSum(m, rest);
  }

  // The repeat distance.
  function Period(v: nat): int
    requires v < WORD
  {
    if Remainder(v) == 0 then 64 else if v == 0 then 0 else Ctz(Remainder(v)) - Ctz(v)
  }

  function Stretch(v: nat): int
    requires 0 < v < WORD
  {
    Pow2(Stop(v)) - Pow2(Ctz(v))
  }

  // The multiplication gives the repeated element, and nothing else repeats it.
  lemma CandidateRepeats(x: nat, d: nat, v: nat)
    requires IsSize(d) && x < Pow2(d) && v < WORD
    ensures v == Repeated(x, d) % WORD <==> Repeats(v, x, d)
  {
    var w := Repeated(x, d);
    BitRepeat(x, d, 0);
    WordArithmetic(w, 0);
    forall i: nat | i < 64
      ensures Bit(w, i) <==> Bit(x, i % d)
    {
      BitRepeat(x, d, i);
    }
    if Repeats(v, x, d) {
      Pow64();
      SameBits(v, w, 64);
    }
  }

  // The tests of the code, all at once.
  ghost predicate Passes(v: nat, d: nat) {
    0 < v < WORD && d == Period(v) && IsSize(d) && 0 <= Stretch(v) < Pow2(d) && Repeats(v, Stretch(v), d)
  }

  // A striped word passes, and only its own stripe fits it.
  lemma StripedPasses(v: nat, e: nat, p: nat, m: nat)
    requires Striped(v, e, p, m)
    ensures Passes(v, e) && p == Ctz(v) && m == Stop(v)
  {
    StripedFits(v, e, p, m);
    StripedPeriod(v, e, p, m);
    RunRepeats(v, e, p, m, Pow2(m) - Pow2(p));
  }

  lemma StripedPeriod(v: nat, e: nat, p: nat, m: nat)
    requires Striped(v, e, p, m)
    ensures v > 0 && Ctz(v) == p && Stop(v) == m && Period(v) == e && Stretch(v) == Pow2(m) - Pow2(p)
  {
    StripedAnalysis(v, e, p, m);
  }

  lemma RunRepeats(v: nat, e: nat, p: nat, m: nat, run: nat)
    requires Striped(v, e, p, m) && run == Pow2(m) - Pow2(p)
    ensures Repeats(v, run, e)
  {
    forall i: nat | i < 64
      ensures Bit(v, i) <==> Bit(run, i % e)
    {
      BitRun(p, m, i % e);
    }
  }

  // A word with a clear low bit that passes is striped.
  lemma PassesIsStriped(v: nat, d: nat)
    requires Passes(v, d) && v % 2 == 0
    ensures Striped(v, d, Ctz(v), Stop(v))
  {
    var p, m := Ctz(v), Stop(v);
    AnalysisOf(v);
    EndInside(p, m, d);
    forall i: nat | i < 64
      ensures Bit(v, i) <==> p <= i % d < m
    {
      BitRun(p, m, i % d);
    }
  }

  lemma EndInside(p: nat, m: nat, d: nat)
    requires p < m && Pow2(m) - Pow2(p) < Pow2(d)
    ensures m <= d && Pow2(p) < Pow2(m) <= Pow2(d)
  {
    Pow2Grows(p, m);
    if p < m - 1 { Pow2Grows(p, m - 1); }
    assert Pow2(m) == 2 * Pow2(m - 1);
    Smaller(m - 1, d);
    if m < d { Pow2Grows(m, d); }
  }

  lemma Smaller(a: nat, b: nat)
    requires Pow2(a) < Pow2(b)
    ensures a < b
  {
    if b < a { Pow2Grows(b, a); }
  }

  lemma NotStriped(v: nat)
    requires forall d: nat :: !Passes(v, d)
    ensures Unstriped(v)
  {
    forall e: nat, p: nat, m: nat
      ensures !Striped(v, e, p, m)
    {
      if Striped(v, e, p, m) { StripedPasses(v, e, p, m); }
    }
  }

  // ------------------------------------------------------------ the code

  method CountLeadingZeros(value: nat, width: nat) returns (count: nat)
    requires value < WORD && 0 < width <= 64
    ensures count <= width && (count < width ==> Bit(value, width - 1 - count))
    ensures forall j: nat :: width - count <= j < width ==> !Bit(value, j)
  {
    count := 0;
    var bitTest := Pow2(width - 1);
    AndPow2(width - 1, value);
    while count < width && And(bitTest, value) == 0
      invariant count <= width
      invariant count < width ==>
          bitTest == Pow2(width - 1 - count) && (And(bitTest, value) == 0 <==> !Bit(value, width - 1 - count))
      invariant forall j: nat :: width - count <= j < width ==> !Bit(value, j)
    {
      count := count + 1;
      bitTest := bitTest / 2;
      if count < width { AndPow2(width - 1 - count, value); }
    }
  }

  method CountOneBit(value: nat, ghost p: nat) returns (count: nat)
    requires p < 64 && value == Pow2(p)
    ensures count == 63 - p
  {
    Pow2Grows(p, 64);
    Pow64();
    count := CountLeadingZeros(value, 64);
    BitPow2(p, p);
    if count < 64 { BitPow2(p, 63 - count); }
  }

  predicate IsPowerOfTwo(x: nat) { x != 0 && And(x, x - 1) == 0 }

  lemma PowersUpTo64(d: nat)
    requires 2 <= d <= 64
    ensures IsPowerOfTwo(d) <==> IsSize(d)
  {
    SmallPowers();
    if IsPowerOfTwo(d) {
      var k := OneBit(d);
      if k > 6 { Pow2Grows(6, k); }
    }
    if IsSize(d) {
      Pow2OneBit(1);
      Pow2OneBit(2);
      Pow2OneBit(3);
      Pow2OneBit(4);
      Pow2OneBit(5);
      Pow2OneBit(6);
    }
  }

  lemma SizeIsPower(d: nat) returns (k: nat)
    requires IsSize(d)
    ensures 1 <= k <= 6 && d == Pow2(k) && (d < 64 ==> k < 6)
  {
    SmallPowers();
    k := if d == 2 then 1 else if d == 4 then 2 else if d == 8 then 3 else if d == 16 then 4 else if d == 32 then 5
      else 6;
  }

  const MULTIPLIERS: seq<nat> := [0x1, 0x1_0000_0001, 0x1_0001_0001_0001, 0x101_0101_0101_0101,
                                  0x1111_1111_1111_1111, 0x5555_5555_5555_5555]

  // The table lookup by CountLeadingZeros(d) - 57 stays inside the table.
  method MultiplierOf(d: nat) returns (multiplier: nat)
    requires IsSize(d)
    ensures multiplier == Multiplier(d)
  {
    ghost var k := SizeIsPower(d);
    var clz := CountOneBit(d, k);
    SmallPowers();
    multiplier := MULTIPLIERS[clz - 57];
  }

  lemma StretchFits(x: nat, d: nat)
    requires x < WORD && d <= 64
    ensures Pow2(d) <= WORD && (And(x, WORD - Pow2(d)) == 0 <==> x < Pow2(d))
  {
    Pow64();
    AndHigh(x, d, 64);
  }

  // The repeat distance, and the mask of one element.
  method RepeatDistance(ghost value: nat, a: nat, c: nat) returns (d: nat, mask: nat, clzA: nat)
    requires 0 < value < WORD
    requires a == LargestPowerOf2Divisor(value) && c == LargestPowerOf2Divisor(Remainder(value))
    ensures 2 <= d <= 64 && d == Period(value) && mask == Pow2(d) - 1 && clzA == 63 - Ctz(value)
  {
    AnalysisOf(value);
    if c != 0 {
      clzA := CountOneBit(a, Ctz(value));
      var clzC := CountOneBit(c, Ctz(Remainder(value)));
      d := clzA - clzC;
      mask := Pow2(d) - 1;
    } else {
      clzA := CountOneBit(a, Ctz(value));
      d := 64;
      mask := WORD - 1;
      Pow64();
    }
  }

  // From the word with a clear low bit to its only possible stripe: the repeat distance d, the
  // leading zeros of a, and b.
  method FindStripe(value: nat) returns (ok: bool, d: nat, clzA: nat, b: nat)
    requires value < WORD && value % 2 == 0
    ensures ok ==> value > 0 && Striped(value, d, Ctz(value), Stop(value))
    ensures ok ==> clzA == 63 - Ctz(value) && b == if Stop(value) == 64 then 0 else Pow2(Stop(value))
    ensures !ok ==> Unstriped(value)
  {
    var a := LargestPowerOf2Divisor(value);
    var valuePlusA := (value + a) % WORD;
    b := LargestPowerOf2Divisor(valuePlusA);
    var valuePlusAMinusB := (valuePlusA + WORD - b) % WORD;
    var c := LargestPowerOf2Divisor(valuePlusAMinusB);
    LowestBitOf(value);
    if c == 0 && a == 0 {
      NotStriped(value);
      return false, 0, 0, 0;
    }
    CZero(value);
    var mask;
    d, mask, clzA := RepeatDistance(value, a, c);
    PowersUpTo64(d);
    if !IsPowerOfTwo(d) {
      NotStriped(value);
      return false, 0, 0, 0;
    }
    AnalysisOf(value);
    StretchOf(value);
    Verdict(value, d, Stretch(value));
    ok := TryCandidate(value, a, b, d, mask);
  }

  // The last tests: the stretch fits the element, and repeating it gives the word back.
  method TryCandidate(value: nat, a: nat, b: nat, d: nat, mask: nat) returns (ok: bool)
    requires 0 < value < WORD && IsSize(d) && mask == Pow2(d) - 1
    requires a == LargestPowerOf2Divisor(value) && b == LargestPowerOf2Divisor(Carried(value))
    ensures Stretch(value) >= 0 && ok == IsCandidate(value, d, Stretch(value))
  {
    var stretch := (b + WORD - a) % WORD;
    StretchIs(value, a, b, stretch);
    ok := TestStretch(value, stretch, d, mask);
  }

  lemma StretchIs(v: nat, a: nat, b: nat, x: nat)
    requires 0 < v < WORD && a == LargestPowerOf2Divisor(v) && b == LargestPowerOf2Divisor(Carried(v))
    requires x == (b + WORD - a) % WORD
    ensures x == Stretch(v)
  {
    StretchOf(v);
  }

  method TestStretch(value: nat, stretch: nat, d: nat, mask: nat) returns (ok: bool)
    requires stretch < WORD && IsSize(d) && mask == Pow2(d) - 1
    ensures ok == IsCandidate(value, d, stretch)
  {
    ok := FitsElement(stretch, d, mask);
    if ok { ok := RepeatGives(value, stretch, d); }
  }

  method RepeatGives(value: nat, stretch: nat, d: nat) returns (ok: bool)
    requires IsSize(d)
    ensures ok == (value == Repeated(stretch, d) % WORD)
  {
    var multiplier := MultiplierOf(d);
    MultipliedIs(stretch, d, multiplier);
    ok := value == stretch * multiplier % WORD;
  }

  method FitsElement(stretch: nat, ghost d: nat, mask: nat) returns (fits: bool)
    requires stretch < WORD && d <= 64 && mask == Pow2(d) - 1
    ensures fits == (stretch < Pow2(d))
  {
    StretchFits(stretch, d);
    assert Not(mask) == WORD - Pow2(d);
    fits := And(stretch, Not(mask)) == 0;
  }

  // What the last tests find for the stretch x.
  predicate IsCandidate(v: nat, d: nat, x: nat)
    requires IsSize(d)
  {
    x < Pow2(d) && v == Repeated(x, d) % WORD
  }

  lemma CandidatePasses(v: nat, d: nat, x: nat)
    requires 0 < v < WORD && IsSize(d) && d == Period(v) && x == Stretch(v) && x < WORD
    ensures IsCandidate(v, d, x) <==> Passes(v, d)
  {
    if x < Pow2(d) { CandidateRepeats(x, d, v); }
  }

  lemma Verdict(v: nat, d: nat, x: nat)
    requires 0 < v < WORD && v % 2 == 0 && IsSize(d) && d == Period(v) && x == Stretch(v) && x < WORD
    ensures if IsCandidate(v, d, x) then Striped(v, d, Ctz(v), Stop(v)) else Unstriped(v)
  {
    CandidatePasses(v, d, x);
    if Passes(v, d) { PassesIsStriped(v, d); } else { NotStriped(v); }
  }

  lemma CZero(v: nat)
    requires v < WORD && (LargestPowerOf2Divisor(v) != 0 || LargestPowerOf2Divisor(Remainder(v)) != 0)
    ensures v > 0
  {}

  // ------------------------------------------------------------ the fields

  // imm_s packs the element size and the number of ones.
  function PackS(d: nat, s: nat): nat
    requires d <= 64 && s > 0
  {
    And(Or(0x1_0000_0000 - 2 * d, s - 1), 0x3f)
  }

  lemma PackSFields(d: nat, s: nat)
    requires IsSize(d) && 1 <= s < d
    ensures var imms := PackS(d, s); imms < 64 && ElementSize(if d == 64 then 1 else 0, imms) == d && imms % d == s - 1
  {
    var k := SizeIsPower(d);
    PackSIs(k, s);
    PackedFields(d, s);
  }

  lemma PackSIs(k: nat, s: nat)
    requires 1 <= k <= 6 && 1 <= s < Pow2(k) <= 64
    ensures PackS(Pow2(k), s) == (0x1_0000_0000 - 2 * Pow2(k) + s - 1) % 64
  {
    var x, y := 0x1_0000_0000 - 2 * Pow2(k), s - 1;
    HighApart(k, x, y);
    LowSixOf(x, y, 0x1_0000_0000 - 2 * Pow2(k) + s - 1);
  }

  lemma LowSixOf(x: nat, y: nat, z: nat)
    requires And(x, y) == 0 && z == x + y
    ensures And(Or(x, y), 0x3f) == z % 64
  {
    OrDisjoint(x, y);
    LowSix(x + y);
  }

  lemma HighApart(k: nat, x: nat, y: nat)
    requires 1 <= k <= 6 && x == 0x1_0000_0000 - 2 * Pow2(k) && y < Pow2(k)
    ensures And(x, y) == 0
  {
    var _ := HighMultiple(k);
    AndApart(Pow2(31 - k) - 1, y, k + 1);
  }

  lemma LowSix(w: nat)
    ensures And(w, 0x3f) == w % 64
  {
    SmallPowers();
    AndLow(w, 6);
  }

  lemma HighMultiple(k: nat) returns (x: nat)
    requires 1 <= k <= 6
    ensures x == 0x1_0000_0000 - 2 * Pow2(k) == (Pow2(31 - k) - 1) * Pow2(k + 1)
  {
    WordPowers();
    Pow2Sum(31 - k, k + 1);
    var y, z := Pow2(31 - k), Pow2(k + 1);
    Distribute(y, 1, z);
    Monotone(0, y - 1, z);
    x := (y - 1) * z;
  }

  lemma PackedFields(d: nat, s: nat)
    requires IsSize(d) && 1 <= s < d
    ensures var imms := (0x1_0000_0000 - 2 * d + s - 1) % 64;
      ElementSize(if d == 64 then 1 else 0, imms) == d && imms % d == s - 1
  {
    var imms := (0x1_0000_0000 - 2 * d + s - 1) % 64;
    assert imms == if d == 64 then s - 1 else 64 - 2 * d + s - 1;
    ModUnique(imms, d, if d == 64 then 0 else 64 / d - 2, s - 1);
  }

  lemma RotateIs(x: nat, d: nat)
    requires IsSize(d)
    ensures And(x, d - 1) == x % d
  {
    var k := SizeIsPower(d);
    AndLow(x, k);
  }

  // A 32-bit value written twice repeats every 32 bits at most.
  lemma NarrowPeriod(value: nat, e: nat, p: nat, m: nat)
    requires value < WORD && Striped(Normal(value, 32), e, p, m)
    ensures e <= 32
  {
    var v := Normal(value, 32);
    if e == 64 {
      var j := if p < 32 then p else p - 32;
      NarrowBit(value, 0);
      NarrowBit(value, j);
      StripedBit(v, e, p, m, 0);
      StripedBit(v, e, p, m, 32);
      StripedBit(v, e, p, m, j);
      StripedBit(v, e, p, m, j + 32);
    }
  }

  lemma NarrowBit(value: nat, i: nat)
    requires value < WORD && i < 32
    ensures Bit(Normal(value, 32), i) <==> Bit(Normal(value, 32), i + 32)
  {
    NormalBits(value, 32, i);
    NormalBits(value, 32, i + 32);
    Wrap32(i);
  }

  lemma Wrap32(i: nat)
    requires i < 32
    ensures (i + 32) % 32 == i == i % 32
  {}

  // The number of ones and the rotation the code derives.
  function OnesOf(negate: bool, d: nat, p: nat, m: nat): int { if negate then d - (m - p) else m - p }

  function RotationOf(negate: bool, d: nat, p: nat, m: nat): nat
    requires d > 0 && p <= 64 && m <= 64
  {
    if negate then (64 - m) % d else (64 - p) % d
  }

  lemma FieldsStripe(negate: bool, d: nat, p: nat, m: nat)
    requires IsSize(d) && 1 <= p < m <= d
    ensures var s, r := OnesOf(negate, d, p, m), RotationOf(negate, d, p, m);
      && 1 <= s < d && r < d && (negate <==> r <= s - 1)
      && StripeStart(d, s - 1, r) == p && StripeEnd(d, s - 1, r) == m
  {
    RotationIs(d, p);
    RotationIs(d, m);
  }

  lemma RotationIs(d: nat, x: nat)
    requires IsSize(d) && 1 <= x <= d
    ensures (64 - x) % d == if x == d then 0 else d - x
  {}

  lemma FieldsDecode(value: nat, width: nat, d: nat, p: nat, m: nat)
    requires value < WORD && (width == 32 || width == 64) && Striped(Normal(value, width), d, p, m)
    ensures var negate := value % 2 == 1;
      && 1 <= OnesOf(negate, d, p, m)
      && Decodes(width, if d == 64 then 1 else 0, PackS(d, OnesOf(negate, d, p, m)), RotationOf(negate, d, p, m),
        Low(value, width))
  {
    var negate := value % 2 == 1;
    var s, r := OnesOf(negate, d, p, m), RotationOf(negate, d, p, m);
    if width == 32 { NarrowPeriod(value, d, p, m); }
    FieldsStripe(negate, d, p, m);
    PackSFields(d, s);
    forall i: nat | i < width
      ensures Bit(Low(value, width), i) <==> ElementBit(d, s - 1, r, i)
    {
      NormalBits(value, width, i);
      ModUnique(i, width, 0, i);
      StripeOf(d, s - 1, r, i);
      StripedBit(Normal(value, width), d, p, m, i);
    }
    DecodesAs(width, d, s, PackS(d, s), r, Low(value, width));
  }

  lemma DecodesAs(width: nat, d: nat, s: nat, imms: nat, r: nat, v: nat)
    requires IsSize(d) && 1 <= s < d && r < d && (width == 32 ==> d != 64) && v < Pow2(width)
    requires imms < 64 && ElementSize(if d == 64 then 1 else 0, imms) == d && imms % d == s - 1
    requires forall i: nat :: i < width ==> (Bit(v, i) <==> ElementBit(d, s - 1, r, i))
    ensures Decodes(width, if d == 64 then 1 else 0, imms, r, v) == true
  {
    ModUnique(r, d, 0, r);
  }

  // Sound and complete: true exactly when some encoding decodes to the value, and then the
  // returned fields are one.
  method IsImmLogical(value: nat, width: nat) returns (ok: bool, n: nat, immS: nat, immR: nat)
    requires value < WORD && (width == 32 || width == 64)
    ensures ok ==> Decodes(width, n, immS, immR, Low(value, width))
    ensures !ok ==> forall n', s', r' :: !Decodes(width, n', s', r', Low(value, width))
  {
    n, immS, immR := 0, 0, 0;
    var negate := value % 2 == 1;
    var v := if negate then Not(value) else value;
    if width == 32 {
      v := v * 0x1_0000_0000 % WORD;
      v := Or(v, v / 0x1_0000_0000);
    }
    assert v == Normal(value, width);
    NormalEven(value, width);
    var d, clzA, b;
    ok, d, clzA, b := FindStripe(v);
    if !ok {
      NotEncodable(value, width);
      return;
    }
    FieldsDecode(value, width, d, Ctz(v), Stop(v));
    n := if d == 64 then 1 else 0;
    immS, immR := Fields(negate, d, clzA, b, Ctz(v), Stop(v));
  }

  // The number of ones and the rotation, from the leading zeros of a and of b.
  method Fields(negate: bool, d: nat, clzA: nat, b: nat, ghost p: nat, ghost m: nat) returns (immS: nat, immR: nat)
    requires IsSize(d) && 1 <= p < m <= d && clzA == 63 - p && b == if m == 64 then 0 else Pow2(m)
    ensures 1 <= OnesOf(negate, d, p, m) && immS == PackS(d, OnesOf(negate, d, p, m))
    ensures immR == RotationOf(negate, d, p, m)
  {
    var clzB: int := -1;
    if b != 0 { clzB := CountOneBit(b, m); }
    var s := clzA - clzB;
    var r := clzA + 1;
    if negate {
      s := d - s;
      r := clzB + 1;
    }
    RotateIs(r, d);
    FieldsAre(negate, d, p, m, s, r);
    immR := And(r, d - 1);
    immS := PackS(d, s);
  }

  lemma FieldsAre(negate: bool, d: nat, p: nat, m: nat, s: int, r: nat)
    requires IsSize(d) && 1 <= p < m <= d
    requires s == (if negate then d - (m - p) else m - p) && r == if negate then 64 - m else 64 - p
    ensures s == OnesOf(negate, d, p, m) >= 1 && r % d == RotationOf(negate, d, p, m)
  {}

  lemma NormalEven(value: nat, width: nat)
    requires value < WORD && (width == 32 || width == 64)
    ensures Normal(value, width) < WORD && Normal(value, width) % 2 == 0
  {
    NormalFits(value, width);
    NormalBits(value, width, 0);
    BitMod(value, width, 0);
  }

  lemma NotEncodable(value: nat, width: nat)
    requires value < WORD && (width == 32 || width == 64)
    requires Unstriped(Normal(value, width))
    ensures forall n, s, r :: !Decodes(width, n, s, r, Low(value, width))
  {
    forall n: nat, s: nat, r: nat
      ensures !Decodes(width, n, s, r, Low(value, width))
    {
      if Decodes(width, n, s, r, Low(value, width)) { EncodedIsStriped(value, width, n, s, r); }
    }
  }
}
