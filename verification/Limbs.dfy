/** Numbers as sequences of signed digits in a given base, least significant
  digit first: the representation of every multi-limb value of the Ed25519 code. */
module Limbs {
  import opened Arith

  function Pow(x: int, n: nat): int {
    if n == 0 then 1 else x * Pow(x, n - 1)
  }

  function Num(s: seq<int>, base: int): int {
    if s == [] then 0 else s[0] + base * Num(s[1..], base)
  }

  lemma {:induction false} PowAdd(x: int, a: nat, b: nat)
    ensures Pow(x, a + b) == Pow(x, a) * Pow(x, b)
  {
    if a > 0 {
      PowAdd(x, a - 1, b);
      MulAssociates(x, Pow(x, a - 1), Pow(x, b));
    }
  }

  lemma PowNext(x: int, n: nat)
    ensures Pow(x, 0) == 1 && Pow(x, n + 1) == x * Pow(x, n)
  {
  }

  lemma {:induction false} PowPositive(x: int, n: nat)
    requires x > 0
    ensures Pow(x, n) > 0
  {
    if n > 0 {
      PowPositive(x, n - 1);
      MulPositive(x, Pow(x, n - 1));
    }
  }

  lemma {:induction false} NumConcat(s: seq<int>, t: seq<int>, base: int)
    ensures Num(s + t, base) == Num(s, base) + Pow(base, |s|) * Num(t, base)
  {
    if s == [] {
      assert s + t == t;
    } else {
      assert (s + t)[1..] == s[1..] + t;
      NumConcat(s[1..], t, base);
      var p, n := Pow(base, |s| - 1), Num(t, base);
      MulDistributes(base, Num(s[1..], base), p * n);
      MulAssociates(base, p, n);
    }
  }

  lemma NumSnoc(s: seq<int>, x: int, base: int)
    ensures Num(s + [x], base) == Num(s, base) + Pow(base, |s|) * x
  {
    NumConcat(s, [x], base);
    assert ([x])[1..] == [];
    assert Num([x], base) == x;
  }

  /** Adding to one digit adds that many units of its place. */
  lemma NumUpdate(s: seq<int>, k: nat, x: int, base: int)
    requires k < |s|
    ensures Num(s[k := s[k] + x], base) == Num(s, base) + Pow(base, k) * x
  {
    var low, high := s[..k], s[k + 1..];
    assert s == (low + [s[k]]) + high && s[k := s[k] + x] == (low + [s[k] + x]) + high;
    NumConcat(low + [s[k]], high, base);
    NumConcat(low + [s[k] + x], high, base);
    NumSnoc(low, s[k], base);
    NumSnoc(low, s[k] + x, base);
    MulDistributes(Pow(base, k), s[k], x);
  }

  ghost predicate Digits(s: seq<int>, base: int) {
    forall i :: 0 <= i < |s| ==> 0 <= s[i] < base
  }

  lemma {:induction false} NumBound(s: seq<int>, base: int)
    requires base > 0 && Digits(s, base)
    ensures 0 <= Num(s, base) < Pow(base, |s|)
  {
    if s != [] {
      NumBound(s[1..], base);
      DigitBound(s[0], Num(s[1..], base), Pow(base, |s| - 1), base);
    }
  }

  lemma DigitBound(x: int, n: int, p: int, base: int)
    requires 0 <= x < base && 0 <= n < p
    ensures 0 <= x + base * n < base * p
  {
    MulMonotone(0, n, base);
    MulMonotone(n + 1, p, base);
  }

  /** Canonical digits determine the number and are determined by it. */
  lemma {:induction false} NumInjective(s: seq<int>, t: seq<int>, base: int)
    requires base > 0 && Digits(s, base) && Digits(t, base) && |s| == |t|
    requires Num(s, base) == Num(t, base)
    ensures s == t
  {
    if s != [] {
      var a, b := Num(s[1..], base), Num(t[1..], base);
      DivUnique(Num(s, base), base, a, s[0]);
      DivUnique(Num(t, base), base, b, t[0]);
      NumInjective(s[1..], t[1..], base);
      assert s == [s[0]] + s[1..] && t == [t[0]] + t[1..];
    }
  }

  lemma {:induction false} NumZero(n: nat, base: int)
    ensures Num(seq(n, i => 0), base) == 0
  {
    if n > 0 {
      NumZero(n - 1, base);
      assert seq(n, i => 0)[1..] == seq(n - 1, i => 0);
    }
  }

  // ---- congruence ----

  ghost predicate Congruent(x: int, y: int, m: int)
    requires m > 0
  {
    x % m == y % m
  }

  lemma CongruentBy(x: int, y: int, k: int, m: int)
    requires m > 0 && x == y + k * m
    ensures Congruent(x, y, m)
  {
    var q, r := y / m, y % m;
    MulDistributes(m, q, k);
    DivUnique(x, m, q + k, r);
  }

  lemma CongruentQuotient(x: int, y: int, m: int) returns (k: int)
    requires m > 0 && Congruent(x, y, m)
    ensures x == y + k * m
  {
    k := x / m - y / m;
    MulDistributes(m, x / m, -(y / m));
  }

  lemma CongruentMul(x: int, x': int, y: int, y': int, m: int)
    requires m > 0 && Congruent(x, x', m) && Congruent(y, y', m)
    ensures Congruent(x * y, x' * y', m)
  {
    var j := CongruentQuotient(x, x', m);
    var k := CongruentQuotient(y, y', m);
    MulExpand(x', j, m, y', k);
    CongruentBy(x * y, x' * y', x' * k + j * y' + j * k * m, m);
  }

  lemma CongruentAdd(x: int, x': int, y: int, y': int, m: int)
    requires m > 0 && Congruent(x, x', m) && Congruent(y, y', m)
    ensures Congruent(x + y, x' + y', m)
    ensures Congruent(x - y, x' - y', m)
  {
    var j := CongruentQuotient(x, x', m);
    var k := CongruentQuotient(y, y', m);
    MulDistributes(m, j, k);
    CongruentBy(x + y, x' + y', j + k, m);
    MulDistributes(m, j, -k);
    CongruentBy(x - y, x' - y', j - k, m);
  }
}
