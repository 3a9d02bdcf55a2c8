/** BS::BitSet<u32> of Common/BitSet.h: the set bits of a 32-bit word. */
module BitSets {
  import opened Words

  // The set bits of m from the i-th up, in ascending order.
  function Ascending(m: nat, i: nat): seq<nat>
    decreases 32 - i
  {
    if i >= 32 then [] else if Bit(m, i) then [i] + Ascending(m, i + 1) else Ascending(m, i + 1)
  }

  lemma {:induction false} AscendingIs(m: nat, i: nat)
    ensures forall k :: 0 <= k < |Ascending(m, i)| ==> i <= Ascending(m, i)[k] < 32 && Bit(m, Ascending(m, i)[k])
    ensures forall j, k :: 0 <= j < k < |Ascending(m, i)| ==> Ascending(m, i)[j] < Ascending(m, i)[k]
    decreases 32 - i
  {
    if i < 32 { AscendingIs(m, i + 1); }
  }

  lemma {:induction false} AscendingHasAll(m: nat, i: nat, x: nat)
    requires i <= x < 32 && Bit(m, x)
    ensures x in Ascending(m, i)
    decreases 32 - i
  {
    if i < x { AscendingHasAll(m, i + 1, x); }
  }

  lemma {:induction false} AscendingSkips(m: nat, i: nat, j: nat)
    requires i <= j <= 32 && forall k: nat :: i <= k < j ==> !Bit(m, k)
    ensures Ascending(m, i) == Ascending(m, j)
    decreases j - i
  {
    if i < j { AscendingSkips(m, i + 1, j); }
  }

  // ------------------------------------------------------------ counting

  function PopCount(v: nat): nat { if v == 0 then 0 else v % 2 + PopCount(v / 2) }

  // The count is the number of elements.
  lemma {:induction false} CountIsSize(m: nat, i: nat)
    requires m < Pow2(32) && i <= 32
    ensures PopCount(Shr(m, i)) == |Ascending(m, i)|
    decreases 32 - i
  {
    ShrFacts(m, i);
    if i < 32 { CountIsSize(m, i + 1); }
  }

  // ------------------------------------------------------------ counting without a loop

  // The sum of n digits in base 4, 16 and 256.
  function Sum4(x: nat, n: nat): nat { if n == 0 then 0 else x % 4 + Sum4(x / 4, n - 1) }

  function Sum16(x: nat, n: nat): nat { if n == 0 then 0 else x % 16 + Sum16(x / 16, n - 1) }

  function Sum256(x: nat, n: nat): nat { if n == 0 then 0 else x % 256 + Sum256(x / 256, n - 1) }

  // The masks 0x55..., 0x33... and 0x0F..., n digits long.
  function Fives(n: nat): nat { if n == 0 then 0 else 1 + 4 * Fives(n - 1) }

  function Threes(n: nat): nat { if n == 0 then 0 else 3 + 16 * Threes(n - 1) }

  function Fs(n: nat): nat { if n == 0 then 0 else 15 + 256 * Fs(n - 1) }

  // Each pair of bits, each pair of pairs, each pair of nibbles added up in place.
  function Pairs(v: nat, n: nat): nat {
    if n == 0 then 0 else v % 2 + v / 2 % 2 + 4 * Pairs(v / 4, n - 1)
  }

  function Nibbles(x: nat, n: nat): nat {
    if n == 0 then 0 else x % 4 + x / 4 % 4 + 16 * Nibbles(x / 16, n - 1)
  }

  function Bytes(x: nat, n: nat): nat {
    if n == 0 then 0 else x % 16 + x / 16 % 16 + 256 * Bytes(x / 256, n - 1)
  }

  lemma AndEven(x: nat, m: nat)
    ensures And(x, 2 * m) == 2 * And(x / 2, m)
  {}

  lemma And4(x: nat, m: nat)
    ensures And(x, 1 + 4 * m) == x % 2 + 4 * And(x / 4, m)
  {
    AndOdd(x, 2 * m);
    AndEven(x / 2, m);
  }

  lemma And16(x: nat, m: nat)
    ensures And(x, 3 + 16 * m) == x % 4 + 16 * And(x / 16, m)
  {
    AndOdd(x, 1 + 8 * m);
    And4(x / 2, 2 * m);
    AndEven(x / 2 / 4, m);
    LowPair(x);
  }

  lemma LowPair(x: nat)
    ensures x % 4 == x % 2 + 2 * (x / 2 % 2) && x / 2 / 4 / 2 == x / 16
  {
    Digits(x, 2, 2);
    Digits(x / 2, 4, 2);
    Digits(x, 2, 8);
  }

  lemma And256(x: nat, m: nat)
    ensures And(x, 15 + 256 * m) == x % 16 + 256 * And(x / 256, m)
  {
    AndOdd(x, 7 + 128 * m);
    AndOdd(x / 2, 3 + 64 * m);
    And16(x / 2 / 2, 4 * m);
    AndEven(x / 2 / 2 / 16, 2 * m);
    AndEven(x / 2 / 2 / 16 / 2, m);
    LowNibble(x);
  }

  lemma LowNibble(x: nat)
    ensures x % 16 == x % 2 + 2 * (x / 2 % 2) + 4 * (x / 2 / 2 % 4) && x / 2 / 2 / 16 / 2 / 2 == x / 256
  {
    Digits(x, 2, 2);
    Digits(x, 4, 4);
    Digits(x, 4, 16);
    Digits(x, 64, 2);
    Digits(x, 128, 2);
  }

  lemma {:induction false} PairSums(v: nat, n: nat)
    requires v < Pow2(2 * n)
    ensures v == And(v / 2, Fives(n)) + Pairs(v, n)
  {
    if n > 0 {
      assert Pow2(2 * n) == 2 * Pow2(2 * n - 1) == 4 * Pow2(2 * (n - 1));
      And4(v / 2, Fives(n - 1));
      PairSums(v / 4, n - 1);
      LastPair(v);
    }
  }

  lemma LastPair(v: nat)
    ensures v == v % 2 + 2 * (v / 2 % 2) + 4 * (v / 4) && v / 2 / 4 == v / 4 / 2
  {
    Digits(v, 2, 4);
    Digits(v, 4, 2);
    Digits(v, 2, 2);
    assert v % 4 + 4 * (v / 4) == v;
  }

  lemma {:induction false} PairsPopCount(v: nat, n: nat)
    requires v < Pow2(2 * n)
    ensures Sum4(Pairs(v, n), n) == PopCount(v)
  {
    if n > 0 {
      assert Pow2(2 * n) == 2 * Pow2(2 * n - 1) == 4 * Pow2(2 * (n - 1));
      PairsPopCount(v / 4, n - 1);
      PairDigits(v % 2 + v / 2 % 2, Pairs(v / 4, n - 1));
      PopCountPair(v);
    }
  }

  lemma PopCountPair(v: nat)
    ensures PopCount(v) == v % 2 + v / 2 % 2 + PopCount(v / 4)
  {
    Digits(v, 2, 2);
    if v > 0 { assert PopCount(v) == v % 2 + PopCount(v / 2); }
  }

  lemma PairDigits(d: nat, x: nat)
    requires d < 4
    ensures (d + 4 * x) % 4 == d && (d + 4 * x) / 4 == x
  {}

  // Nibbles that leave room for a carry-free sum.
  predicate Small(x: nat, n: nat) { if n == 0 then x == 0 else x % 16 <= 6 && Small(x / 16, n - 1) }

  lemma {:induction false} NibbleSums(x: nat, n: nat)
    ensures And(x, Threes(n)) + And(x / 4, Threes(n)) == Nibbles(x, n)
  {
    if n > 0 {
      And16(x, Threes(n - 1));
      And16(x / 4, Threes(n - 1));
      NibbleSums(x / 16, n - 1);
      Digits(x, 4, 16);
      Digits(x, 16, 4);
    }
  }

  lemma {:induction false} NibblesSum(x: nat, n: nat, w: nat)
    requires w == Nibbles(x, n)
    ensures Sum16(w, n) == Sum4(x, 2 * n) && Small(w, n)
  {
    if n > 0 {
      var rest := Nibbles(x / 16, n - 1);
      NibblesSum(x / 16, n - 1, rest);
      NibbleDigits(x % 4 + x / 4 % 4, rest);
      Sum4Pair(x, n);
    }
  }

  lemma Sum4Pair(x: nat, n: nat)
    requires n > 0
    ensures Sum4(x, 2 * n) == x % 4 + x / 4 % 4 + Sum4(x / 16, 2 * (n - 1))
  {
    Digits(x, 4, 4);
    assert Sum4(x, 2 * n) == x % 4 + Sum4(x / 4, 2 * n - 1);
  }

  lemma NibbleDigits(d: nat, x: nat)
    requires d <= 6
    ensures (d + 16 * x) % 16 == d && (d + 16 * x) / 16 == x
  {}

  lemma {:induction false} ByteSums(x: nat, n: nat)
    requires Small(x, 2 * n)
    ensures And(x + x / 16, Fs(n)) == Bytes(x, n)
  {
    if n > 0 {
      SmallPair(x, n);
      And256(x + x / 16, Fs(n - 1));
      NoCarry(x);
      ByteSums(x / 256, n - 1);
    }
  }

  lemma SmallPair(x: nat, n: nat)
    requires n > 0 && Small(x, 2 * n)
    ensures x % 16 <= 6 && x / 16 % 16 <= 6 && x / 256 % 16 <= 6 && Small(x / 256, 2 * (n - 1))
  {
    assert Small(x / 16, 2 * n - 1) && x / 16 / 16 == x / 256;
    assert n > 1 ==> Small(x / 256, 2 * (n - 1));
  }

  lemma {:induction false} BytesSum(x: nat, n: nat)
    ensures Sum256(Bytes(x, n), n) == Sum16(x, 2 * n)
  {
    if n > 0 {
      BytesSum(x / 256, n - 1);
      ByteDigits(x % 16 + x / 16 % 16, Bytes(x / 256, n - 1));
      Digits(x, 16, 16);
      assert Sum16(x, 2 * n) == x % 16 + (x / 16 % 16 + Sum16(x / 256, 2 * (n - 1)));
    }
  }

  lemma ByteDigits(d: nat, x: nat)
    requires d <= 30
    ensures (d + 256 * x) % 256 == d && (d + 256 * x) / 256 == x
  {}

  lemma NoCarry(x: nat)
    requires x % 16 <= 6 && x / 16 % 16 <= 6 && x / 256 % 16 <= 6
    ensures (x + x / 16) % 16 == x % 16 + x / 16 % 16 && (x + x / 16) / 256 == x / 256 + x / 256 / 16
  {
    var l, h, k, z := x % 16, x / 16 % 16, x / 256 % 16, x / 256 / 16;
    Digits(x, 16, 16);
    var q := x / 16;
    assert x == 16 * q + l && q == 16 * (q / 16) + h && x / 256 == 16 * z + k;
    Cut(x + q, 16, q + q / 16, l + h);
    Cut(x + q, 256, x / 256 + z, 16 * (h + k) + h + l);
  }

  // The multiplication adds four bytes in the top one.
  lemma TopByte(x: nat)
    requires x / 0x100_0000 < 256 && Sum256(x, 4) < 256
    ensures x * 0x101_0101 % 0x1_0000_0000 / 0x100_0000 == Sum256(x, 4)
  {
    var a, b, c, d := x % 256, x / 256 % 256, x / 256 / 256 % 256, x / 256 / 256 / 256;
    assert x == a + 256 * b + 0x1_0000 * c + 0x100_0000 * d;
    assert Sum256(x, 4) == a + (b + (c + d)) by {
      assert Sum256(x, 4) == a + Sum256(x / 256, 3) && Sum256(x / 256, 3) == b + Sum256(x / 256 / 256, 2);
      assert Sum256(x / 256 / 256, 2) == c + Sum256(x / 256 / 256 / 256, 1);
    }
    var low := 0x1_0000 * (a + b + c) + 256 * (a + b) + a;
    var high := b + c + d + 256 * (c + d) + 0x1_0000 * d;
    assert x * 0x101_0101 == high * 0x1_0000_0000 + ((a + b + c + d) * 0x100_0000 + low);
    Cut(x * 0x101_0101, 0x1_0000_0000, high, (a + b + c + d) * 0x100_0000 + low);
    Cut((a + b + c + d) * 0x100_0000 + low, 0x100_0000, a + b + c + d, low);
  }

  lemma FivesMask()
    ensures Fives(16) == 0x5555_5555
  {
    FivesByFour(16);
    FivesByFour(12);
    FivesByFour(8);
    FivesByFour(4);
  }

  lemma ThreesMask()
    ensures Threes(8) == 0x3333_3333
  {
    assert Threes(4) == 3 + 16 * (3 + 16 * (3 + 16 * 3));
    assert Threes(6) == 3 + 16 * (3 + 16 * Threes(4)) && Threes(8) == 3 + 16 * (3 + 16 * Threes(6));
  }

  lemma FsMask()
    ensures Fs(4) == 0x0F0F_0F0F
  {
    assert Fs(2) == 15 + 256 * 15 && Fs(4) == 15 + 256 * (15 + 256 * Fs(2));
  }

  lemma FivesByFour(n: nat)
    requires n >= 4
    ensures Fives(n) == 0x55 + 256 * Fives(n - 4)
  {
    assert Fives(n) == 1 + 4 * (1 + 4 * Fives(n - 2)) && Fives(n - 2) == 1 + 4 * (1 + 4 * Fives(n - 4));
  }

  lemma {:induction false} AndAtMost(x: nat, y: nat)
    ensures And(x, y) <= y
  {
    if x > 0 && y > 0 { AndAtMost(x / 2, y / 2); }
  }

  lemma {:induction false} PopCountBound(v: nat, k: nat)
    requires v < Pow2(k)
    ensures PopCount(v) <= k
  {
    if v > 0 { PopCountBound(v / 2, k - 1); }
  }

  // The three sums and the multiplication keep the count in the digits.
  lemma PairsCount(val: nat, v: nat)
    requires val < Pow2(32) && v == val - And(val / 2, 0x5555_5555)
    ensures v >= 0 && Sum4(v, 16) == PopCount(val) <= 32
  {
    FivesMask();
    PairSums(val, 16);
    PairsPopCount(val, 16);
    PopCountBound(val, 32);
  }

  lemma NibblesCount(v: nat, w: nat)
    requires w == And(v, Threes(8)) + And(v / 4, Threes(8))
    ensures Sum16(w, 8) == Sum4(v, 16) && Small(w, 8)
  {
    NibbleSums(v, 8);
    NibblesSum(v, 8, w);
  }

  lemma BytesCount(w: nat, x: nat)
    requires Small(w, 8) && x == And(w + w / 16, 0x0F0F_0F0F)
    ensures x <= 0x0F0F_0F0F && Sum256(x, 4) == Sum16(w, 8)
  {
    FsMask();
    ByteSums(w, 4);
    BytesSum(w, 4);
    AndAtMost(w + w / 16, 0x0F0F_0F0F);
  }

  lemma TopByteCount(x: nat, count: nat)
    requires x <= 0x0F0F_0F0F && Sum256(x, 4) == count <= 32
    ensures x * 0x101_0101 % 0x1_0000_0000 / 0x100_0000 == count
  {
    TopByte(x);
  }

  lemma PairsFit(val: nat)
    requires val < Pow2(32)
    ensures And(val / 2, 0x5555_5555) <= val
  {
    FivesMask();
    PairSums(val, 16);
  }

  // The form without a popcount instruction.
  method CountSetBits(val: nat) returns (r: nat)
    requires val < Pow2(32)
    ensures r == PopCount(val)
  {
    PairsFit(val);
    var v := val - And(val / 2, 0x5555_5555);
    var w := And(v, 0x3333_3333) + And(v / 4, 0x3333_3333);
    var x := And(w + w / 16, 0x0F0F_0F0F);
    r := x * 0x101_0101 % 0x1_0000_0000 / 0x100_0000;
    Counted(val, v, w, x);
  }

  lemma Counted(val: nat, v: nat, w: nat, x: nat)
    requires val < Pow2(32) && v == val - And(val / 2, 0x5555_5555)
    requires w == And(v, 0x3333_3333) + And(v / 4, 0x3333_3333) && x == And(w + w / 16, 0x0F0F_0F0F)
    ensures x * 0x101_0101 % 0x1_0000_0000 / 0x100_0000 == PopCount(val)
  {
    PairsCount(val, v);
    ThreesMask();
    NibblesCount(v, w);
    BytesCount(w, x);
    TopByteCount(x, PopCount(val));
  }

  // ------------------------------------------------------------ iteration

  lemma {:induction false} ClearLowest(v: nat, j: nat)
    requires v > 0
    ensures v >= Pow2(Ctz(v)) && Bit(v, Ctz(v)) && (j < Ctz(v) ==> !Bit(v, j))
    ensures Bit(v - Pow2(Ctz(v)), j) <==> Bit(v, j) && j != Ctz(v)
  {
    if v % 2 == 1 {
      if j > 0 { assert (v - 1) / 2 == v / 2; }
    } else {
      ClearLowest(v / 2, if j > 0 then j - 1 else 0);
      assert (v - Pow2(Ctz(v))) / 2 == v / 2 - Pow2(Ctz(v / 2));
    }
  }

  // BitSet::Iterator: m_val holds the bits still to come.
  class Iterator {
    ghost const all: nat
    ghost var from: nat
    var val: nat
    var bit: int

    ghost predicate Valid()
      reads this
    {
      all < Pow2(32) && val < Pow2(32) && forall j: nat :: Bit(val, j) <==> j >= from && Bit(all, j)
    }

    // What is still to be visited, the bit it stands on included; -1 is the end.
    ghost function Left(): seq<nat>
      reads this
    {
      if bit < 0 then [] else [bit as nat] + Ascending(all, from)
    }

    // begin(): stands on the first element, or at the end.
    constructor Begin(m: nat)
      requires m < Pow2(32)
      ensures Valid() && all == m && Left() == Ascending(m, 0) && -1 <= bit < 32 && (bit >= 0 ==> from == bit + 1)
    {
      all, from, val, bit := m, 0, m, 0;
      new;
      Next();
    }

    // operator++: moves to the next element, or to the end.
    method Next()
      requires Valid()
      modifies this
      ensures Valid() && Left() == Ascending(all, old(from)) && -1 <= bit < 32
      ensures bit >= 0 ==> old(from) <= bit && from == bit + 1
    {
      if val == 0 {
        bit := -1;
        Empty();
      } else {
        Step();
      }
    }

    lemma Empty()
      requires Valid() && val == 0
      ensures Ascending(all, from) == []
    {
      forall j: nat | from <= j
        ensures !Bit(all, j)
      {
        BitZero(j);
      }
      if from <= 32 { AscendingSkips(all, from, 32); }
    }

    // The lowest bit of val is the next element; left holds the bits after it.
    lemma LowestAt(lowest: nat, left: nat, j: nat)
      requires Valid() && val > 0 && lowest == Ctz(val) && Pow2(lowest) <= val && left == val - Pow2(lowest)
      ensures from <= lowest && Bit(all, lowest) && (from <= j < lowest ==> !Bit(all, j))
      ensures Bit(left, j) <==> j >= lowest + 1 && Bit(all, j)
    {
      ClearLowest(val, j);
      assert Bit(val, lowest) && (Bit(val, j) <==> j >= from && Bit(all, j));
    }

    lemma Lowest(lowest: nat, left: nat)
      requires Valid() && val > 0 && lowest == Ctz(val) && Pow2(lowest) <= val && left == val - Pow2(lowest)
      ensures from <= lowest && Bit(all, lowest) && forall j: nat :: from <= j < lowest ==> !Bit(all, j)
      ensures forall j: nat :: Bit(left, j) <==> j >= lowest + 1 && Bit(all, j)
    {
      LowestAt(lowest, left, 0);
      forall j: nat
        ensures from <= j < lowest ==> !Bit(all, j)
        ensures Bit(left, j) <==> j >= lowest + 1 && Bit(all, j)
      {
        LowestAt(lowest, left, j);
      }
    }

    method Step()
      requires Valid() && val > 0
      modifies this
      ensures Valid() && 0 <= bit < 32 && old(from) <= bit && from == bit + 1 && Left() == Ascending(all, old(from))
    {
      var lowest := Ctz(val);
      CtzBelow(val, 32);
      Lowest(lowest, val - Pow2(lowest));
      AscendingSkips(all, from, lowest);
      val := val - Pow2(lowest);
      bit := lowest;
      from := lowest + 1;
    }
  }

  // for (int i : bs): visits exactly the set bits, in ascending order.
  method Elements(m: nat) returns (r: seq<nat>)
    requires m < Pow2(32)
    ensures r == Ascending(m, 0)
  {
    r := [];
    var it := new Iterator.Begin(m);
    while it.bit != -1
      invariant it.Valid() == true && it.all == m && -1 <= it.bit < 32 && (it.bit >= 0 ==> it.from == it.bit + 1)
      invariant Ascending(m, 0) == r + it.Left()
      decreases if it.bit < 0 then 0 else 33 - it.bit
    {
      Visited(r, it.bit, Ascending(m, it.from));
      r := r + [it.bit];
      it.Next();
    }
  }

  lemma Visited(r: seq<nat>, bit: nat, rest: seq<nat>)
    ensures r + ([bit] + rest) == r + [bit] + rest
  {}
}
