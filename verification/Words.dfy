/** Machine words as naturals, with the bitwise operators defined bit by bit. */
module Words {

  const WORD := 0x1_0000_0000_0000_0000

  function Pow2(k: nat): (r: nat)
    ensures r > 0
  {
    if k == 0 then 1 else 2 * Pow2(k - 1)
  }

  predicate Bit(v: nat, i: nat) { if i == 0 then v % 2 == 1 else Bit(v / 2, i - 1) }

  function And(x: nat, y: nat): nat {
    if x == 0 || y == 0 then 0
    else (if x % 2 == 1 && y % 2 == 1 then 1 else 0) + 2 * And(x / 2, y / 2)
  }

  function Or(x: nat, y: nat): nat {
    if x == 0 then y else if y == 0 then x
    else (if x % 2 == 1 || y % 2 == 1 then 1 else 0) + 2 * Or(x / 2, y / 2)
  }

  function Xor(x: nat, y: nat): nat {
    if x == 0 then y else if y == 0 then x else (if x % 2 != y % 2 then 1 else 0) + 2 * Xor(x / 2, y / 2)
  }

  // ~v in a 64-bit word.
  function Not(v: nat): nat
    requires v < WORD
  {
    WORD - 1 - v
  }

  // The C++ cast of an integer to s32.
  function ToS32(x: int): (r: int)
    ensures -0x8000_0000 <= r < 0x8000_0000
    ensures -0x8000_0000 <= x < 0x8000_0000 ==> r == x
    ensures x >= -0x8000_0000 ==> r <= x
  {
    (x + 0x8000_0000) % 0x1_0000_0000 - 0x8000_0000
  }

  lemma SmallPowers()
    ensures Pow2(0) == 1 && Pow2(1) == 2 && Pow2(2) == 4 && Pow2(3) == 8 && Pow2(4) == 16 && Pow2(5) == 32
        && Pow2(6) == 64
  {
    assert Pow2(3) == 8 && Pow2(6) == 2 * (2 * (2 * Pow2(3)));
  }

  lemma WordPowers()
    ensures Pow2(8) == 0x100 && Pow2(16) == 0x1_0000 && Pow2(32) == 0x1_0000_0000 && Pow2(64) == WORD
  {
    SmallPowers();
    Pow2Sum(4, 4);
    Pow2Sum(8, 8);
    Pow2Sum(16, 16);
    Pow2Sum(32, 32);
  }

  lemma Pow64()
    ensures Pow2(64) == WORD
  {
    WordPowers();
  }

  lemma {:induction false} Pow2Sum(a: nat, b: nat)
    ensures Pow2(a + b) == Pow2(a) * Pow2(b)
  {
    if a > 0 { Pow2Sum(a - 1, b); }
  }

  lemma {:induction false} Pow2Grows(a: nat, b: nat)
    requires a < b
    ensures 2 * Pow2(a) <= Pow2(b)
  {
    if a < b - 1 { Pow2Grows(a, b - 1); }
  }

  lemma {:induction false} BitPow2(k: nat, i: nat)
    ensures Bit(Pow2(k), i) <==> i == k
  {
    if k == 0 {
      if i > 0 { BitZero(i - 1); }
    } else if i > 0 {
      BitPow2(k - 1, i - 1);
    }
  }

  lemma {:induction false} BitZero(i: nat)
    ensures !Bit(0, i)
  {
    if i > 0 { BitZero(i - 1); }
  }

  lemma {:induction false} BitBelow(v: nat, k: nat, i: nat)
    requires v < Pow2(k) && k <= i
    ensures !Bit(v, i)
  {
    if k == 0 { BitZero(i); } else { BitBelow(v / 2, k - 1, i - 1); }
  }

  lemma {:induction false} BitNot(v: nat, k: nat, i: nat)
    requires v < Pow2(k) && i < k
    ensures Bit(Pow2(k) - 1 - v, i) <==> !Bit(v, i)
  {
    Halved(Pow2(k) - 1 - v, 1 - v % 2, Pow2(k - 1) - 1 - v / 2);
    if i > 0 { BitNot(v / 2, k - 1, i - 1); }
  }

  lemma {:induction false} BitRun(p: nat, m: nat, i: nat)
    requires p <= m
    ensures Pow2(p) <= Pow2(m)
    ensures Bit(Pow2(m) - Pow2(p), i) <==> p <= i < m
  {
    if p < m { Pow2Grows(p, m); }
    if p == m {
      BitZero(i);
    } else if p > 0 {
      if i > 0 { BitRun(p - 1, m - 1, i - 1); }
    } else if i > 0 {
      assert (Pow2(m) - 1) / 2 == Pow2(m - 1) - 1;
      BitRun(0, m - 1, i - 1);
    }
  }

  // v >> i.
  function Shr(v: nat, i: nat): nat { if i == 0 then v else Shr(v / 2, i - 1) }

  lemma {:induction false} ShrFacts(v: nat, i: nat)
    ensures (Bit(v, i) <==> Shr(v, i) % 2 == 1) && Shr(v, i + 1) == Shr(v, i) / 2
    ensures v < Pow2(i) ==> Shr(v, i) == 0
  {
    if i > 0 { ShrFacts(v / 2, i - 1); }
  }

  lemma {:induction false} BitShr(v: nat, n: nat, i: nat)
    ensures Bit(Shr(v, n), i) <==> Bit(v, i + n)
    ensures Shr(v, n) <= v
  {
    if n > 0 { BitShr(v / 2, n - 1, i); }
  }

  lemma {:induction false} BitOr(x: nat, y: nat, i: nat)
    ensures Bit(Or(x, y), i) <==> Bit(x, i) || Bit(y, i)
  {
    BitZero(i);
    if x > 0 && y > 0 && i > 0 { BitOr(x / 2, y / 2, i - 1); }
  }

  lemma {:induction false} BitAnd(x: nat, y: nat, i: nat)
    ensures Bit(And(x, y), i) <==> Bit(x, i) && Bit(y, i)
  {
    BitZero(i);
    if x > 0 && y > 0 && i > 0 { BitAnd(x / 2, y / 2, i - 1); }
  }

  lemma {:induction false} OrFits(x: nat, y: nat, k: nat)
    requires x < Pow2(k) && y < Pow2(k)
    ensures Or(x, y) < Pow2(k)
  {
    if x > 0 && y > 0 { OrFits(x / 2, y / 2, k - 1); }
  }

  lemma {:induction false} AndFits(x: nat, y: nat)
    ensures And(x, y) <= x
  {
    if x > 0 && y > 0 { AndFits(x / 2, y / 2); }
  }

  lemma {:induction false} SameBits(v: nat, w: nat, k: nat)
    requires v < Pow2(k) && w < Pow2(k) && forall i: nat :: i < k ==> (Bit(v, i) <==> Bit(w, i))
    ensures v == w
  {
    if k > 0 {
      assert Bit(v, 0) <==> Bit(w, 0);
      forall i: nat | i < k - 1
        ensures Bit(v / 2, i) <==> Bit(w / 2, i)
      {
        assert Bit(v, i + 1) <==> Bit(w, i + 1);
      }
      SameBits(v / 2, w / 2, k - 1);
    }
  }

  lemma {:induction false} AndPow2(k: nat, v: nat)
    ensures And(Pow2(k), v) == if Bit(v, k) then Pow2(k) else 0
  {
    if k > 0 && v > 0 { AndPow2(k - 1, v / 2); } else { BitZero(k); }
  }

  lemma {:induction false} AndComplement(v: nat, k: nat)
    requires v < Pow2(k)
    ensures And(v, Pow2(k) - 1 - v) == 0
  {
    if k > 0 {
      AndComplement(v / 2, k - 1);
      assert (Pow2(k) - 1 - v) / 2 == Pow2(k - 1) - 1 - v / 2;
    }
  }

  // x & (2^d - 1).
  lemma {:induction false} AndLow(x: nat, d: nat)
    ensures And(x, Pow2(d) - 1) == x % Pow2(d)
  {
    if d > 0 {
      var h := Pow2(d - 1);
      AndLow(x / 2, d - 1);
      ModHalf(x, h);
      AndOdd(x, h - 1);
    }
  }

  lemma AndOdd(x: nat, m: nat)
    ensures And(x, 1 + 2 * m) == x % 2 + 2 * And(x / 2, m)
  {
    assert (1 + 2 * m) / 2 == m;
  }

  lemma ModHalf(x: nat, h: nat)
    requires h > 0
    ensures x % (2 * h) == x % 2 + 2 * ((x / 2) % h)
  {
    var q, r := (x / 2) / h, (x / 2) % h;
    assert x == (2 * h) * q + (x % 2 + 2 * r);
    ModUnique(x, 2 * h, q, x % 2 + 2 * r);
  }

  lemma {:induction false} BitTimes(v: nat, e: nat, i: nat)
    ensures Bit(v * Pow2(e), i) <==> i >= e && Bit(v, i - e)
  {
    if e > 0 {
      assert v * Pow2(e) == 2 * (v * Pow2(e - 1));
      if i > 0 { BitTimes(v, e - 1, i - 1); }
    } else {
      assert v * Pow2(0) == v;
    }
  }

  lemma {:induction false} BitMod(v: nat, k: nat, i: nat)
    requires i < k
    ensures Bit(v % Pow2(k), i) <==> Bit(v, i)
  {
    var low := v / 2 % Pow2(k - 1);
    ModHalf(v, Pow2(k - 1));
    Halved(v % Pow2(k), v % 2, low);
    if i > 0 { BitMod(v / 2, k - 1, i - 1); }
  }

  lemma Halved(x: nat, bit: nat, rest: nat)
    requires bit < 2 && x == bit + 2 * rest
    ensures x % 2 == bit && x / 2 == rest
  {}

  lemma Distribute(a: int, b: int, h: int)
    ensures (a - b) * h == a * h - b * h && (a + b) * h == a * h + b * h
  {}

  lemma Monotone(a: int, b: int, h: int)
    requires a <= b && h >= 0
    ensures a * h <= b * h
  {
    Distribute(b, a, h);
  }

  lemma ModUnique(x: nat, n: nat, q: nat, r: nat)
    requires n > 0 && x == n * q + r && r < n
    ensures x % n == r && x / n == q
  {
    var d, m := x / n, x % n;
    assert x == n * d + m;
    if d > q { Monotone(q + 1, d, n); Distribute(q, 1, n); }
    if d < q { Monotone(d + 1, q, n); Distribute(d, 1, n); }
  }

  lemma Associate(q: int, b: int, h: int)
    ensures q * b * h == h * b * q
  {}

  // Taking digits off in two steps or in one.
  lemma Digits(x: nat, h: nat, b: nat)
    requires h > 0 && b > 0
    ensures h * b > 0 && x / h / b == x / (h * b) && x % (h * b) == x % h + x / h % b * h
  {
    var q, d, r := x / h / b, x / h % b, x % h;
    DigitSum(x, h, b, q, d, r);
    DigitBound(h, b, d, r);
    ModUnique(x, h * b, q, r + d * h);
  }

  lemma DigitSum(x: nat, h: nat, b: nat, q: nat, d: nat, r: nat)
    requires h > 0 && b > 0 && q == x / h / b && d == x / h % b && r == x % h
    ensures x == h * b * q + (r + d * h)
  {
    assert x == x / h * h + r;
    assert x / h == q * b + d;
    Distribute(q * b, d, h);
    Associate(q, b, h);
  }

  lemma DigitBound(h: nat, b: nat, d: nat, r: nat)
    requires d < b && r < h
    ensures r + d * h < h * b
  {
    Monotone(d + 1, b, h);
    Distribute(d, 1, h);
    Associate(1, b, h);
  }

  // The bits of w above and below the unit k.
  lemma Cut(w: nat, k: nat, hi: nat, lo: nat)
    requires k > 0 && w == hi * k + lo && lo < k
    ensures w / k == hi && w % k == lo
  {
    ModUnique(w, k, hi, lo);
  }

  // x & ~(2^d - 1) in a word of k bits is 0 only below 2^d.
  lemma {:induction false} AndHigh(x: nat, d: nat, k: nat)
    requires d <= k && x < Pow2(k)
    ensures Pow2(d) <= Pow2(k)
    ensures And(x, Pow2(k) - Pow2(d)) == 0 <==> x < Pow2(d)
  {
    if d < k { Pow2Grows(d, k); }
    if d > 0 {
      AndHigh(x / 2, d - 1, k - 1);
    } else {
      AndOnes(x, k);
    }
  }

  lemma {:induction false} AndOnes(x: nat, k: nat)
    requires x < Pow2(k)
    ensures And(x, Pow2(k) - 1) == x
  {
    if k > 0 {
      AndOnes(x / 2, k - 1);
      assert (Pow2(k) - 1) / 2 == Pow2(k - 1) - 1;
    }
  }

  lemma {:induction false} OrAtLeast(x: nat, y: nat)
    ensures Or(x, y) >= x && Or(x, y) >= y
  {
    if x > 0 && y > 0 { OrAtLeast(x / 2, y / 2); }
  }

  // Two words without a common bit.
  lemma {:induction false} OrDisjoint(x: nat, y: nat)
    requires And(x, y) == 0
    ensures Or(x, y) == x + y
  {
    if x > 0 && y > 0 { OrDisjoint(x / 2, y / 2); }
  }

  // ------------------------------------------------------------ the lowest set bit

  function Ctz(v: nat): nat
    requires v > 0
  {
    if v % 2 == 1 then 0 else 1 + Ctz(v / 2)
  }

  lemma {:induction false} CtzBelow(v: nat, k: nat)
    requires 0 < v < Pow2(k)
    ensures Ctz(v) < k && v + Pow2(Ctz(v)) <= Pow2(k) && Pow2(Ctz(v)) <= v
  {
    if v % 2 == 0 { CtzBelow(v / 2, k - 1); }
  }

  lemma {:induction false} CtzIs(v: nat, p: nat)
    requires Bit(v, p) && forall i: nat :: i < p ==> !Bit(v, i)
    ensures v > 0 && Ctz(v) == p
  {
    BitZero(p);
    if p > 0 {
      assert !Bit(v, 0);
      forall i: nat | i < p - 1
        ensures !Bit(v / 2, i)
      {
        assert !Bit(v, i + 1);
      }
      CtzIs(v / 2, p - 1);
    }
  }

  // v & -v in a word of k bits.
  lemma {:induction false} AndNegative(v: nat, k: nat)
    requires 0 < v < Pow2(k)
    ensures And(v, Pow2(k) - v) == Pow2(Ctz(v))
  {
    if v % 2 == 0 {
      AndNegative(v / 2, k - 1);
    } else if k > 0 {
      assert (Pow2(k) - v) / 2 == Pow2(k - 1) - 1 - v / 2;
      AndComplement(v / 2, k - 1);
    }
  }

  // Adding the lowest bit moves the lowest bit up; taking it away does too.
  lemma {:induction false} CtzMoves(v: nat)
    requires v > 0
    ensures Ctz(v + Pow2(Ctz(v))) > Ctz(v)
    ensures Pow2(Ctz(v)) <= v && (v > Pow2(Ctz(v)) ==> Ctz(v - Pow2(Ctz(v))) > Ctz(v))
  {
    if v % 2 == 0 { CtzMoves(v / 2); }
  }

  // No bit below the k-th.
  predicate Clear(v: nat, k: nat) { k == 0 || (v % 2 == 0 && Clear(v / 2, k - 1)) }

  lemma {:induction false} CtzSum(m: nat, t: nat)
    requires Clear(t, m + 1)
    ensures Ctz(Pow2(m) + t) == m
  {
    if m > 0 { CtzSum(m - 1, t / 2); }
  }

  // x & (x - 1) == 0.
  lemma {:induction false} OneBit(x: nat) returns (k: nat)
    requires x > 0 && And(x, x - 1) == 0
    ensures x == Pow2(k)
  {
    if x % 2 == 1 {
      AndSelf(x / 2);
      k := 0;
    } else {
      assert (x - 1) / 2 == x / 2 - 1;
      k := OneBit(x / 2);
      k := k + 1;
    }
  }

  lemma {:induction false} AndSelf(x: nat)
    ensures And(x, x) == x
  {
    if x > 0 { AndSelf(x / 2); }
  }

  lemma {:induction false} Pow2OneBit(k: nat)
    ensures And(Pow2(k), Pow2(k) - 1) == 0
  {
    if k > 0 {
      Pow2OneBit(k - 1);
      assert (Pow2(k) - 1) / 2 == Pow2(k - 1) - 1;
    }
  }
}
