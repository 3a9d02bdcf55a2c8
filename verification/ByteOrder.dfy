/** Bytes, and numbers in little-endian order. */
module ByteOrder {

  type Byte = b: nat | b < 256 witness 0

  // The little-endian bytes of x.
  function Le(x: nat, n: nat): (r: seq<Byte>)
    ensures |r| == n
  {
    if n == 0 then [] else [x % 256] + Le(x / 256, n - 1)
  }

  function Number(b: seq<Byte>): nat { if b == [] then 0 else b[0] + 256 * Number(b[1..]) }

  // 256 to the n.
  function Limit(n: nat): (r: nat)
    ensures r > 0
  {
    if n == 0 then 1 else 256 * Limit(n - 1)
  }

  lemma Limits()
    ensures Limit(1) == 0x100 && Limit(2) == 0x1_0000 && Limit(4) == 0x1_0000_0000
    ensures Limit(8) == 0x1_0000_0000_0000_0000
  {
    assert Limit(2) == 0x1_0000 && Limit(4) == 0x1_0000 * Limit(2);
    assert Limit(6) == 0x1_0000 * Limit(4) && Limit(8) == 0x1_0000 * Limit(6);
  }

  lemma {:induction false} LeNumber(x: nat, n: nat)
    requires x < Limit(n)
    ensures Number(Le(x, n)) == x
  {
    if n > 0 {
      LeNumber(x / 256, n - 1);
      assert Le(x, n)[1..] == Le(x / 256, n - 1);
    }
  }

  lemma {:induction false} NumberIsLimited(b: seq<Byte>)
    ensures Number(b) < Limit(|b|)
  {
    if b != [] { NumberIsLimited(b[1..]); }
  }
}
