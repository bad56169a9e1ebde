/** Big-endian numbers. */
module Endian {
  import opened Arith
  import opened Bits

  const WORD := 0x1_0000_0000
  const LONG := 0x1_0000_0000_0000_0000

  /** Big-endian, in k bytes. */
  function BigEndian(n: nat, k: nat): (r: seq<Byte>)
    ensures |r| == k
  {
    if k == 0 then [] else BigEndian(n / 256, k - 1) + [n % 256]
  }

  function Bound(k: nat): nat {
    if k == 0 then 1 else 256 * Bound(k - 1)
  }

  lemma {:induction false} BigEndianInjective(n: nat, m: nat, k: nat)
    requires n < Bound(k) && m < Bound(k) && BigEndian(n, k) == BigEndian(m, k)
    ensures n == m
  {
    if k > 0 {
      var a, b := BigEndian(n / 256, k - 1), BigEndian(m / 256, k - 1);
      assert (a + [n % 256])[..k - 1] == a && (b + [m % 256])[..k - 1] == b;
      assert (a + [n % 256])[k - 1] == n % 256 && (b + [m % 256])[k - 1] == m % 256;
      BigEndianInjective(n / 256, m / 256, k - 1);
    }
  }

  lemma Bounds()
    ensures Bound(4) == WORD && Bound(8) == LONG
  {
    assert Bound(1) == 256 && Bound(2) == 65536 && Bound(3) == 16777216;
    assert Bound(5) == 0x100_0000_0000 && Bound(6) == 0x1_0000_0000_0000 && Bound(7) == 0x100_0000_0000_0000;
  }

  lemma {:induction false} BigEndianAt(n: nat, k: nat, j: nat)
    requires j < k
    ensures Bound(k - 1 - j) > 0 && BigEndian(n, k)[j] == n / Bound(k - 1 - j) % 256
  {
    if j < k - 1 {
      BigEndianAt(n / 256, k - 1, j);
      var m := k - 2 - j;
      assert BigEndian(n, k)[j] == BigEndian(n / 256, k - 1)[j];
      DivProduct(n, 256, Bound(m));
    }
  }

  lemma FourBytes(n: nat)
    requires n < WORD
    ensures BigEndian(n, 4) == [n / 0x1000000 % 256, n / 0x10000 % 256, n / 0x100 % 256, n % 256]
  {
    assert n / 256 / 256 == n / 0x10000 && n / 0x10000 / 256 == n / 0x1000000;
    assert BigEndian(n, 4) == BigEndian(n / 256, 3) + [n % 256];
    assert BigEndian(n / 256, 3) == BigEndian(n / 256 / 256, 2) + [n / 256 % 256];
    assert BigEndian(n / 0x10000, 2) == BigEndian(n / 0x10000 / 256, 1) + [n / 0x10000 % 256];
    assert BigEndian(n / 0x1000000, 1) == [] + [n / 0x1000000 % 256];
  }
}
