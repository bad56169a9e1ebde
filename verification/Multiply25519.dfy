/** Multiplication modulo P and the two fixed-exponent powers built from it. */
module Multiply25519 {
  import opened Arith
  import opened Limbs
  import opened Field25519

  const FACTOR: int := 0x400_0000
  const UNIT: int := 0x10_0000_0000_0000

  /** What the code may pass to a multiplication: every limb below 2^26 in absolute value. */
  ghost predicate Factor(s: seq<int>) {
    |s| == 16 && Within(s, -FACTOR + 1, FACTOR)
  }

  /** What a multiplication returns. */
  ghost predicate Product(s: seq<int>) {
    |s| == 16 && -38 <= s[0] < B + 38 && Within(s[1..], 0, B)
  }

  lemma ProductIsFactor(s: seq<int>)
    requires Product(s)
    ensures Factor(s)
  {
    forall i | 0 <= i < 16
      ensures -FACTOR < s[i] < FACTOR
    {
      assert i > 0 ==> s[i] == s[1..][i - 1];
    }
  }

  lemma SmallProduct(x: int, y: int)
    requires -FACTOR < x < FACTOR && -FACTOR < y < FACTOR
    ensures -UNIT < x * y < UNIT
  {
    var a, b := if x < 0 then -x else x, if y < 0 then -y else y;
    MulMonotone(a, FACTOR - 1, b);
    MulMonotone(b, FACTOR - 1, FACTOR - 1);
    assert x * y == a * b || x * y == -(a * b);
  }

  /** Row i up to column j of the schoolbook product is in the accumulator. */
  ghost predicate Accumulated(t: seq<int>, a: seq<int>, b: seq<int>, i: nat, j: nat) {
    && |t| == 31 && |a| == |b| == 16 && i < 16 && j <= 16
    && Num(t, B) == Num(a[..i], B) * Num(b, B) + Pow(B, i) * (a[i] * Num(b[..j], B))
    && (forall k :: 0 <= k < 31 ==> -UNIT * (i + 1) <= t[k] <= UNIT * (i + 1))
    && (forall k :: 0 <= k < 31 && i + j <= k ==> -UNIT * i <= t[k] <= UNIT * i)
  }

  lemma AccumulateNext(t: seq<int>, a: seq<int>, b: seq<int>, i: nat, j: nat)
    requires Accumulated(t, a, b, i, j) && j < 16 && -UNIT < a[i] * b[j] < UNIT
    ensures Accumulated(t[i + j := t[i + j] + a[i] * b[j]], a, b, i, j + 1)
  {
    hide Num, Pow;
    var x := a[i] * b[j];
    NumUpdate(t, i + j, x, B);
    PowAdd(B, i, j);
    assert b[..j + 1] == b[..j] + [b[j]];
    NumSnoc(b[..j], b[j], B);
    AccumulateArith(Pow(B, i), Pow(B, j), a[i], b[j], Num(b[..j], B));
  }

  lemma AccumulateArith(p: int, q: int, x: int, y: int, n: int)
    ensures p * (x * (n + q * y)) == p * (x * n) + (p * q) * (x * y)
  {
    MulDistributes(x, n, q * y);
    MulDistributes(p, x * n, x * (q * y));
    assert x * (q * y) == q * (x * y);
    MulAssociates(p, q, x * y);
  }

  lemma AccumulateRow(t: seq<int>, a: seq<int>, b: seq<int>, i: nat)
    requires i < 16 && Accumulated(t, a, b, i, 16)
    ensures Num(t, B) == Num(a[..i + 1], B) * Num(b, B)
  {
    hide Num, Pow;
    assert b[..16] == b && a[..i + 1] == a[..i] + [a[i]];
    NumSnoc(a[..i], a[i], B);
    var p, x, n := Pow(B, i), a[i], Num(b, B);
    MulDistributes(n, Num(a[..i], B), p * x);
    MulAssociates(p, x, n);
  }

  lemma AccumulateStart(t: seq<int>, a: seq<int>, b: seq<int>, i: nat)
    requires |t| == 31 && |a| == |b| == 16 && i < 16 && Num(t, B) == Num(a[..i], B) * Num(b, B)
    requires forall k :: 0 <= k < 31 ==> -UNIT * i <= t[k] <= UNIT * i
    ensures Accumulated(t, a, b, i, 0)
  {
    hide Pow;
    assert b[..0] == [];
    assert Num(b[..0], B) == 0;
    hide *;
    assert Pow(B, i) * (a[i] * 0) == 0;
  }

  /** The schoolbook product, limb sums kept within int64. */
  method WideProduct(a: array<int>, b: array<int>) returns (t: array<int>)
    requires a.Length == b.Length == 16 && Factor(a[..]) && Factor(b[..])
    ensures fresh(t) && t.Length == 31
    ensures Num(t[..], B) == Num(a[..], B) * Num(b[..], B)
    ensures forall k :: 0 <= k < 31 ==> -UNIT * 16 <= t[k] <= UNIT * 16
  {
    t := new int[31](k => 0);
    ghost var x, y := a[..], b[..];
    ZeroProduct(t[..], x, y);
    hide Num, Pow, Accumulated;
    for i := 0 to 16
      invariant a[..] == x && b[..] == y
      invariant Num(t[..], B) == Num(x[..i], B) * Num(y, B)
      invariant forall k :: 0 <= k < 31 ==> -UNIT * i <= t[k] <= UNIT * i
    {
      AccumulateStart(t[..], x, y, i);
      for j := 0 to 16
        invariant a[..] == x && b[..] == y
        invariant Accumulated(t[..], x, y, i, j)
      {
        SmallProduct(a[i], b[j]);
        AccumulatedFits(t[..], x, y, i, j);
        AccumulateNext(t[..], x, y, i, j);
        assert Int64(a[i] * b[j]) && Int64(t[i + j] + a[i] * b[j]);
        t[i + j] := t[i + j] + a[i] * b[j];
      }
      AccumulatedFits(t[..], x, y, i, 16);
      AccumulateRow(t[..], x, y, i);
    }
    assert x[..16] == x;
  }

  lemma AccumulatedFits(t: seq<int>, a: seq<int>, b: seq<int>, i: nat, j: nat)
    requires Accumulated(t, a, b, i, j)
    ensures |t| == 31 && forall k :: 0 <= k < 31 ==> -UNIT * (i + 1) <= t[k] <= UNIT * (i + 1)
  {
  }

  lemma ZeroProduct(t: seq<int>, a: seq<int>, b: seq<int>)
    requires t == seq(31, k => 0) && |a| == 16
    ensures Num(t, B) == Num(a[..0], B) * Num(b, B)
  {
    NumZero(31, B);
    assert a[..0] == [];
  }

  lemma {:induction false} NumAddScaled(s: seq<int>, r: seq<int>, c: int, sum: seq<int>)
    requires |s| == |r| == |sum| && forall i :: 0 <= i < |s| ==> sum[i] == s[i] + c * r[i]
    ensures Num(sum, B) == Num(s, B) + c * Num(r, B)
  {
    if s != [] {
      NumAddScaled(s[1..], r[1..], c, sum[1..]);
      var n, m := Num(s[1..], B), Num(r[1..], B);
      assert sum[0] + B * (n + c * m) == s[0] + B * n + c * (r[0] + B * m) by {
        MulDistributes(c, r[0], B * m);
        MulDistributes(B, n, c * m);
      }
    }
  }

  /** Folding the high limbs onto the low ones with weight 38 keeps the residue. */
  lemma FoldValue(t: seq<int>, o: seq<int>)
    requires |t| == 31 && |o| == 16
    requires forall k :: 0 <= k < 15 ==> o[k] == t[k] + 38 * t[k + 16]
    requires o[15] == t[15]
    ensures Congruent(Num(o, B), Num(t, B), P)
  {
    hide Num, Pow;
    var low, high := t[..16], t[16..];
    assert t == low + high;
    NumConcat(low, high, B);
    NumSnoc(high, 0, B);
    NumAddScaled(low, high + [0], 38, o);
    Modulus();
    var h := Num(high, B);
    assert Pow(B, 15) * 0 == 0;
    FoldArith(Num(t, B), Pow(B, 16), P, h);
    CongruentBy(Num(o, B), Num(t, B), -2 * h, P);
  }

  /** The two loops after the product: fold, then copy the low limbs out. */
  method Fold(o: array<int>, t: array<int>)
    requires o.Length == 16 && t.Length == 31 && o != t
    requires forall k :: 0 <= k < 31 ==> -UNIT * 16 <= t[k] <= UNIT * 16
    modifies o, t
    ensures Congruent(Num(o[..], B), old(Num(t[..], B)), P)
    ensures Within(o[..], -0x4000_0000_0000_0000, 0x4000_0000_0000_0000)
  {
    hide Num, Pow;
    ghost var u := t[..];
    assert forall k :: 0 <= k < 31 ==> -UNIT * 16 <= u[k] <= UNIT * 16;
    for i := 0 to 15
      invariant forall k :: 0 <= k < i ==> t[k] == u[k] + 38 * u[k + 16]
      invariant forall k :: i <= k < 31 ==> t[k] == u[k]
    {
      assert Int64(38 * t[i + 16]) && Int64(t[i] + 38 * t[i + 16]);
      t[i] := t[i] + 38 * t[i + 16];
    }
    ghost var v := t[..];
    forall k | 0 <= k < 16
      ensures -UNIT * 624 <= v[k] <= UNIT * 624
    {
      assert k < 15 ==> v[k] == u[k] + 38 * u[k + 16];
    }
    for i := 0 to 16
      invariant t[..] == v && forall k :: 0 <= k < i ==> o[k] == v[k]
    {
      o[i] := t[i];
    }
    FoldValue(u, o[..]);
  }

  /** ed_M: the product modulo P, for factors below 2^26 in every limb; no
    intermediate value leaves int64. The result may overwrite a factor. */
  method Multiply(o: array<int>, a: array<int>, b: array<int>)
    requires o.Length == a.Length == b.Length == 16 && Factor(a[..]) && Factor(b[..])
    modifies o
    ensures Product(o[..])
    ensures Congruent(Num(o[..], B), old(Num(a[..], B)) * old(Num(b[..], B)), P)
  {
    hide Num, Pow, CarryPass, CarryIn;
    var t := WideProduct(a, b);
    Fold(o, t);
    ghost var s := o[..];
    FirstPass(s);
    SecondPass(CarryPass(s));
    CarryValue(s);
    CarryValue(CarryPass(s));
    Carry(o);
    Spread(o[..]);
    Carry(o);
  }

  /** The power x^e modulo P is held in c. */
  ghost predicate HoldsPower(c: seq<int>, x: int, e: nat) {
    Product(c) && Congruent(Num(c, B), Pow(x, e), P)
  }

  method SquareAndMultiply(c: array<int>, i: array<int>, multiply: bool, ghost e: nat)
    requires c.Length == i.Length == 16 && c != i && Factor(i[..]) && Factor(c[..])
    requires Congruent(Num(c[..], B), Pow(Num(i[..], B), e), P)
    modifies c
    ensures HoldsPower(c[..], Num(i[..], B), if multiply then 2 * e + 1 else 2 * e)
  {
    hide Num, Pow;
    ghost var x, n := Num(i[..], B), Num(c[..], B);
    Modulus();
    Multiply(c, c, c);
    CongruentMul(n, Pow(x, e), n, Pow(x, e), P);
    PowAdd(x, e, e);
    if multiply {
      ProductIsFactor(c[..]);
      ghost var m := Num(c[..], B);
      Multiply(c, c, i);
      CongruentMul(m, Pow(x, 2 * e), x, x, P);
      PowNext(x, 2 * e);
      MulDistributes(x, Pow(x, 2 * e), 0);
    }
  }

  /** The bits of P - 2 from the top down to bit a: all ones but bits 2 and 4. */
  function InverseExponent(a: nat): nat
    requires a <= 254
    decreases 254 - a
  {
    if a == 254 then 1 else 2 * InverseExponent(a + 1) + if a == 2 || a == 4 then 0 else 1
  }

  /** The bits of (P - 5) / 8 from the top down to bit a: all ones but bit 1. */
  function RootExponent(a: nat): nat
    requires a <= 251
    decreases 251 - a
  {
    if a == 251 then 1 else 2 * RootExponent(a + 1) + if a == 1 then 0 else 1
  }

  lemma {:induction false} InverseHigh(a: nat)
    requires 5 <= a <= 254
    ensures InverseExponent(a) + 1 == Pow(2, 255 - a)
    decreases 254 - a
  {
    PowNext(2, 254 - a);
    if a < 254 {
      InverseHigh(a + 1);
    }
  }

  lemma InverseIsFermat()
    ensures InverseExponent(0) == P - 2
  {
    InverseHigh(5);
    PowerOf250();
    assert InverseExponent(4) == 2 * InverseExponent(5);
    assert InverseExponent(3) == 2 * InverseExponent(4) + 1;
    assert InverseExponent(2) == 2 * InverseExponent(3);
    assert InverseExponent(1) == 2 * InverseExponent(2) + 1;
  }

  lemma PowerOf250()
    ensures 32 * Pow(2, 250) == P + 19
  {
    Modulus();
    PowAdd(2, 250, 5);
    assert Pow(2, 5) == 32 by { assert Pow(2, 1) == 2 && Pow(2, 2) == 4 && Pow(2, 3) == 8 && Pow(2, 4) == 16; }
    PowersOfTwo(15);
    PowAdd(2, 240, 15);
    PowerOf15();
    assert Pow(B, 16) == B * Pow(B, 15);
  }

  lemma PowerOf15()
    ensures Pow(2, 15) == 0x8000 && Pow(2, 16) == B
  {
    PowNext(2, 15);
    PowAdd(2, 8, 7);
    assert Pow(2, 1) == 2 && Pow(2, 2) == 4 && Pow(2, 3) == 8 && Pow(2, 4) == 16;
    PowAdd(2, 4, 3);
    PowAdd(2, 4, 4);
  }

  lemma {:induction false} PowersOfTwo(n: nat)
    ensures Pow(2, 16 * n) == Pow(B, n)
  {
    if n > 0 {
      PowersOfTwo(n - 1);
      PowAdd(2, 16, 16 * (n - 1));
      PowerOf15();
    }
  }

  method CopyLimbs(i: array<int>) returns (c: array<int>)
    requires i.Length == 16
    ensures fresh(c) && c.Length == 16 && c[..] == i[..]
  {
    c := new int[16];
    for a := 0 to 16
      invariant forall k :: 0 <= k < a ==> c[k] == i[k]
    {
      c[a] := i[a];
    }
  }

  method CopyOut(o: array<int>, c: array<int>)
    requires o.Length == c.Length == 16 && o != c
    modifies o
    ensures o[..] == c[..]
  {
    for a := 0 to 16
      invariant forall k :: 0 <= k < a ==> o[k] == c[k]
    {
      o[a] := c[a];
    }
  }

  lemma FirstPower(s: seq<int>)
    ensures Congruent(Num(s, B), Pow(Num(s, B), 1), P)
    ensures InverseExponent(254) == 1 && RootExponent(251) == 1
  {
    PowNext(Num(s, B), 0);
  }

  /** ed_inv25519: i to the power P - 2, which by Fermat is its inverse. The
    loop's c is squared 254 times and multiplied by i at all but two of them. */
  method Invert(o: array<int>, i: array<int>)
    requires o.Length == i.Length == 16 && Factor(i[..])
    modifies o
    ensures HoldsPower(o[..], old(Num(i[..], B)), P - 2)
  {
    hide Num, Pow, InverseExponent;
    var c := CopyLimbs(i);
    FirstPower(i[..]);
    ghost var x := Num(i[..], B);
    for a := 254 downto 0
      invariant i[..] == old(i[..]) && Factor(c[..])
      invariant Congruent(Num(c[..], B), Pow(x, InverseExponent(a)), P)
      invariant a == 0 ==> Product(c[..])
    {
      InverseStep(a);
      SquareAndMultiply(c, i, a != 2 && a != 4, InverseExponent(a + 1));
      ProductIsFactor(c[..]);
    }
    InverseIsFermat();
    CopyOut(o, c);
  }

  lemma InverseStep(a: nat)
    requires a < 254
    ensures InverseExponent(a) == if a != 2 && a != 4 then 2 * InverseExponent(a + 1) + 1 else 2 * InverseExponent(a + 1)
  {
  }

  lemma RootStep(a: nat)
    requires a < 251
    ensures RootExponent(a) == if a != 1 then 2 * RootExponent(a + 1) + 1 else 2 * RootExponent(a + 1)
  {
  }

  lemma {:induction false} RootHigh(a: nat)
    requires 2 <= a <= 251
    ensures RootExponent(a) + 1 == Pow(2, 252 - a)
    decreases 251 - a
  {
    PowNext(2, 251 - a);
    if a < 251 {
      RootHigh(a + 1);
    }
  }

  lemma RootIsExponent()
    ensures RootExponent(0) == (P - 5) / 8
  {
    RootHigh(2);
    PowerOf250();
    assert RootExponent(1) == 2 * RootExponent(2);
  }

  /** ed_pow2523: i to the power (P - 5) / 8, the square-root exponent. */
  method Power2523(o: array<int>, i: array<int>)
    requires o.Length == i.Length == 16 && Factor(i[..])
    modifies o
    ensures HoldsPower(o[..], old(Num(i[..], B)), (P - 5) / 8)
  {
    hide Num, Pow, RootExponent;
    var c := CopyLimbs(i);
    FirstPower(i[..]);
    ghost var x := Num(i[..], B);
    for a := 251 downto 0
      invariant i[..] == old(i[..]) && Factor(c[..])
      invariant Congruent(Num(c[..], B), Pow(x, RootExponent(a)), P)
      invariant a == 0 ==> Product(c[..])
    {
      RootStep(a);
      SquareAndMultiply(c, i, a != 1, RootExponent(a + 1));
      ProductIsFactor(c[..]);
    }
    RootIsExponent();
    CopyOut(o, c);
  }
}
