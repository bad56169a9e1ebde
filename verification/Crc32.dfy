/** CRC-32 as RFC 1952 section 8 defines it, one bit at a time, and the
  table-driven computation of the encoder, proved equal to it. */
module Crc32 {
  import Arith
  import opened Bits

  const POLYNOMIAL: nat := 0xedb88320
  const ONES: nat := 0xffffffff

  function Step(c: nat): nat {
    if c % 2 == 1 then Xor(POLYNOMIAL, c / 2) else c / 2
  }

  function Steps(c: nat, k: nat): nat
    decreases k
  {
    if k == 0 then c else Steps(Step(c), k - 1)
  }

  /** One byte's worth of steps: the entries of the table. */
  function ByteSteps(c: nat): nat {
    Steps(c, 8)
  }

  /** The register after shifting in every bit of the data. */
  function Register(data: seq<Byte>): nat {
    if data == [] then ONES
    else ByteSteps(Xor(Register(data[..|data| - 1]), data[|data| - 1]))
  }

  function Checksum(data: seq<Byte>): nat {
    Xor(Register(data), ONES)
  }

  lemma StepLinear(a: nat, b: nat)
    ensures Step(Xor(a, b)) == Xor(Step(a), Step(b))
  {
    hide Xor;
    XorHalves(a, b);
    var p, x, y := POLYNOMIAL, a / 2, b / 2;
    if a % 2 == 1 && b % 2 == 1 {
      // (p ^ x) ^ (p ^ y) == x ^ y
      XorCommutes(p, x);
      XorAssociates(x, p, Xor(p, y));
      XorAssociates(p, p, y);
      XorSelf(p);
      XorZero(y);
    } else if a % 2 == 1 {
      XorAssociates(p, x, y);
    } else if b % 2 == 1 {
      XorAssociates(p, x, y);
      XorCommutes(p, x);
      XorAssociates(x, p, y);
    }
  }

  lemma {:induction false} StepsLinear(a: nat, b: nat, k: nat)
    ensures Steps(Xor(a, b), k) == Xor(Steps(a, k), Steps(b, k))
    decreases k
  {
    if k > 0 {
      StepLinear(a, b);
      StepsLinear(Step(a), Step(b), k - 1);
    }
  }

  /** Zero bits are shifted out unchanged. */
  lemma {:induction false} StepsOfZeros(y: nat, k: nat)
    ensures Steps(y * Pow2(k), k) == y
  {
    if k > 0 {
      var p := Pow2(k - 1);
      assert Pow2(k) == 2 * p;
      hide Pow2, Step;
      TwiceOver(y, p);
      EvenStep(y * p);
      StepsOfZeros(y, k - 1);
    }
  }

  lemma TwiceOver(y: nat, p: nat)
    ensures y * (2 * p) == 2 * (y * p)
  {
  }

  lemma EvenStep(z: nat)
    ensures Step(2 * z) == z
  {
    hide Xor;
  }

  lemma {:induction false} StepsBound(c: nat, k: nat)
    requires c < 0x1_0000_0000
    ensures Steps(c, k) < 0x1_0000_0000
    decreases k
  {
    hide Xor, Pow2;
    if k > 0 {
      Pow2Word();
      XorBound(POLYNOMIAL, c / 2, 32);
      StepsBound(Step(c), k - 1);
    }
  }

  /** A byte's eight steps are one table lookup and a shift. */
  lemma TableStep(x: nat)
    ensures ByteSteps(x) == Xor(ByteSteps(x % 256), x / 256)
  {
    assert Pow2(8) == 256;
    XorDisjoint(x % 256, x / 256, 8);
    assert x == Xor(x % 256, (x / 256) * Pow2(8));
    StepsLinear(x % 256, (x / 256) * Pow2(8), 8);
    StepsOfZeros(x / 256, 8);
  }

  lemma XorQuarters(a: nat, b: nat)
    ensures Xor(a, b) / 16 == Xor(a / 16, b / 16)
  {
    hide *;
    XorHalves(a, b);
    XorHalves(a / 2, b / 2);
    XorHalves(a / 4, b / 4);
    XorHalves(a / 8, b / 8);
    Arith.Quotients(a);
    Arith.Quotients(b);
    Arith.Quotients(Xor(a, b));
  }

  lemma XorHighBytes(a: nat, b: Byte)
    ensures Xor(a, b) / 256 == a / 256
  {
    hide *;
    XorQuarters(a, b);
    XorQuarters(a / 16, b / 16);
    Arith.Quotients(a);
    Arith.Quotients(Xor(a, b));
    XorZero(a / 256);
  }

  lemma {:induction false} RegisterBound(data: seq<Byte>)
    ensures Register(data) < 0x1_0000_0000
  {
    if data != [] {
      RegisterBound(data[..|data| - 1]);
      Pow2Word();
      XorBound(Register(data[..|data| - 1]), data[|data| - 1], 32);
      StepsBound(Xor(Register(data[..|data| - 1]), data[|data| - 1]), 8);
    }
  }

  lemma {:induction false} StepsSnoc(c: nat, k: nat)
    ensures Steps(c, k + 1) == Step(Steps(c, k))
    decreases k
  {
    if k > 0 {
      StepsSnoc(Step(c), k - 1);
    }
  }

  method TableEntry(i: nat) returns (c: nat)
    ensures c == ByteSteps(i)
  {
    c := i;
    for k := 0 to 8
      invariant c == Steps(i, k)
    {
      StepsSnoc(i, k);
      c := if c % 2 == 1 then Xor(POLYNOMIAL, c / 2) else c / 2;
    }
  }

  method Table() returns (table: array<nat>)
    ensures fresh(table) && table.Length == 256
    ensures forall i :: 0 <= i < 256 ==> table[i] == ByteSteps(i)
  {
    hide *;
    table := new nat[256];
    for i := 0 to 256
      invariant forall j :: 0 <= j < i ==> table[j] == ByteSteps(j)
    {
      var c := TableEntry(i);
      table[i] := c;
    }
  }

  method GzCrc32(data: seq<Byte>) returns (crc: nat)
    ensures crc == Checksum(data) < 0x1_0000_0000
  {
    hide ByteSteps, Xor;
    var table := Table();
    crc := ONES;
    for i := 0 to |data|
      invariant crc == Register(data[..i])
      invariant forall j :: 0 <= j < 256 ==> table[j] == ByteSteps(j)
    {
      var x := Xor(crc, data[i]);
      NextRegister(data, i);
      crc := Xor(table[x % 256], crc / 256);
    }
    assert data[..|data|] == data;
    RegisterBound(data);
    Pow2Word();
    XorBound(crc, ONES, 32);
    crc := Xor(crc, ONES);
  }

  lemma NextRegister(data: seq<Byte>, i: nat)
    requires i < |data|
    ensures var crc := Register(data[..i]);
            Register(data[..i + 1]) == Xor(ByteSteps(Xor(crc, data[i]) % 256), crc / 256)
  {
    var crc, b := Register(data[..i]), data[i];
    assert data[..i + 1][..i] == data[..i];
    XorHighBytes(crc, b);
    TableStep(Xor(crc, b));
  }

  // ---- the polynomial ----

  /** The bits of a polynomial below its leading power x^32, with the highest power in
    the lowest bit. */
  function Reflected(powers: seq<nat>): nat
    requires forall i :: 0 <= i < |powers| ==> powers[i] < 32
  {
    if powers == [] then 0 else Pow2(31 - powers[0]) + Reflected(powers[1..])
  }

  /** The polynomial of section 8 of RFC 1952: x^32 + x^26 + x^23 + x^22 + x^16 + x^12 +
    x^11 + x^10 + x^8 + x^7 + x^5 + x^4 + x^2 + x + 1. And the register starts with
    all its 32 bits set, which are turned around at the end. */
  lemma Polynomial()
    ensures POLYNOMIAL == Reflected([26, 23, 22, 16, 12, 11, 10]) + Reflected([8, 7, 5, 4, 2, 1, 0])
    ensures ONES == Pow2(32) - 1
  {
    Powers();
    hide Pow2;
    Seven(26, 23, 22, 16, 12, 11, 10);
    Seven(8, 7, 5, 4, 2, 1, 0);
  }

  lemma Seven(a: nat, b: nat, c: nat, d: nat, e: nat, f: nat, g: nat)
    requires a < 32 && b < 32 && c < 32 && d < 32 && e < 32 && f < 32 && g < 32
    ensures Reflected([a, b, c, d, e, f, g])
         == Pow2(31 - a) + Pow2(31 - b) + Pow2(31 - c) + Pow2(31 - d) + Pow2(31 - e) + Pow2(31 - f) + Pow2(31 - g)
  {
    hide Pow2;
    assert [a, b, c, d, e, f, g][1..] == [b, c, d, e, f, g] && [b, c, d, e, f, g][1..] == [c, d, e, f, g];
    assert [c, d, e, f, g][1..] == [d, e, f, g] && [d, e, f, g][1..] == [e, f, g];
    assert [e, f, g][1..] == [f, g] && [f, g][1..] == [g] && [g][1..] == [];
    assert Reflected([g]) == Pow2(31 - g);
    assert Reflected([f, g]) == Pow2(31 - f) + Reflected([g]);
    assert Reflected([e, f, g]) == Pow2(31 - e) + Reflected([f, g]);
    assert Reflected([d, e, f, g]) == Pow2(31 - d) + Reflected([e, f, g]);
    assert Reflected([c, d, e, f, g]) == Pow2(31 - c) + Reflected([d, e, f, g]);
    assert Reflected([b, c, d, e, f, g]) == Pow2(31 - b) + Reflected([c, d, e, f, g]);
  }

  lemma Powers()
    ensures Pow2(5) == 0x20 && Pow2(8) == 0x100 && Pow2(9) == 0x200 && Pow2(15) == 0x8000 && Pow2(19) == 0x8_0000
    ensures Pow2(20) == 0x10_0000 && Pow2(21) == 0x20_0000 && Pow2(23) == 0x80_0000 && Pow2(24) == 0x100_0000
    ensures Pow2(26) == 0x400_0000 && Pow2(27) == 0x800_0000 && Pow2(29) == 0x2000_0000 && Pow2(30) == 0x4000_0000
    ensures Pow2(31) == 0x8000_0000 && Pow2(32) == 0x1_0000_0000
  {
    assert Pow2(8) == 256 && Pow2(5) == 32;
    assert Pow2(9) == 512 && Pow2(12) == 0x1000 && Pow2(15) == 0x8000;
    assert Pow2(19) == 0x8_0000 && Pow2(21) == 0x20_0000 && Pow2(24) == 0x100_0000;
    assert Pow2(27) == 0x800_0000 && Pow2(30) == 0x4000_0000;
  }
}
