/** Arithmetic modulo 2^255 - 19 on sixteen 16-bit limbs held in signed 64-bit
  words: lazy carries, canonical packing, multiplication and the two fixed
  exponentiations. Every intermediate value is asserted to fit a signed 64-bit
  word, so the unbounded integers of the model compute what the machine does. */
module Field25519 {
  import opened Arith
  import opened Limbs

  const B: int := 0x1_0000
  const P: int := 57896044618658097711785492504343953926634992332820282019728792003956564819949

  ghost predicate Int64(x: int) {
    -0x8000_0000_0000_0000 <= x < 0x8000_0000_0000_0000
  }

  /** Every limb lies in [low, high). */
  ghost predicate Within(s: seq<int>, low: int, high: int) {
    forall i :: 0 <= i < |s| ==> low <= s[i] < high
  }

  lemma Modulus()
    ensures Pow(B, 16) == 2 * P + 38 && P > 38
  {
    assert Pow(B, 1) == B * Pow(B, 0);
    PowAdd(B, 1, 1);
    PowAdd(B, 2, 2);
    PowAdd(B, 4, 4);
    PowAdd(B, 8, 8);
  }

  // ---- one carry pass ----

  function CarryIn(s: seq<int>, i: nat): int
    requires i <= |s|
  {
    if i == 0 then 0 else (s[i - 1] + CarryIn(s, i - 1)) / B
  }

  function Reduced(s: seq<int>): (r: seq<int>)
    ensures |r| == |s|
  {
    seq(|s|, i requires 0 <= i < |s| => (s[i] + CarryIn(s, i)) % B)
  }

  /** What a pass leaves: each limb reduced, and 38 times the carry out of the
    top limb added to the bottom one, since 2^256 is 38 modulo P. */
  function CarryPass(s: seq<int>): (r: seq<int>)
    requires |s| == 16
    ensures |r| == 16
  {
    Reduced(s)[0 := Reduced(s)[0] + 38 * CarryIn(s, 16)]
  }

  lemma {:induction false} ReducedTail(s: seq<int>, i: nat)
    requires i <= |s|
    ensures Num(Reduced(s)[i..], B) == Num(s[i..], B) + CarryIn(s, i) - Pow(B, |s| - i) * CarryIn(s, |s|)
    decreases |s| - i
  {
    if i < |s| {
      ReducedTail(s, i + 1);
      var r := Reduced(s);
      assert r[i..][1..] == r[i + 1..] && s[i..][1..] == s[i + 1..];
      var q, top, num := CarryIn(s, i + 1), CarryIn(s, |s|), Num(s[i + 1..], B);
      CarrySplit(s, i);
      ReducedArith(s[i], CarryIn(s, i), r[i], q, num, Pow(B, |s| - i - 1), top);
    }
  }

  lemma CarrySplit(s: seq<int>, i: nat)
    requires i < |s|
    ensures s[i] + CarryIn(s, i) == Reduced(s)[i] + B * CarryIn(s, i + 1)
  {
  }

  lemma ReducedArith(x: int, c: int, r: int, q: int, num: int, p: int, top: int)
    requires x + c == r + B * q
    ensures r + B * (num + q - p * top) == x + B * num + c - (B * p) * top
  {
    MulAssociates(B, p, top);
  }

  lemma CarryPassUnfolds(s: seq<int>)
    requires |s| == 16
    ensures CarryPass(s) == Reduced(s)[0 := Reduced(s)[0] + 38 * CarryIn(s, 16)]
    ensures Pow(B, 0) == 1 && CarryIn(s, 0) == 0
  {
    hide Reduced;
  }

  /** A pass changes the number by a multiple of P. */
  lemma CarryValue(s: seq<int>)
    requires |s| == 16
    ensures Num(CarryPass(s), B) == Num(s, B) - 2 * CarryIn(s, 16) * P
    ensures Congruent(Num(CarryPass(s), B), Num(s, B), P)
  {
    hide *;
    var r, q := Reduced(s), CarryIn(s, 16);
    CarryPassUnfolds(s);
    ReducedTail(s, 0);
    assert r[0..] == r && s[0..] == s;
    NumUpdate(r, 0, 38 * q, B);
    Modulus();
    FoldArith(Num(s, B), Pow(B, 16), P, q);
    CongruentBy(Num(CarryPass(s), B), Num(s, B), -2 * q, P);
  }

  lemma FoldArith(n: int, w: int, p: int, q: int)
    requires w == 2 * p + 38
    ensures n - w * q + 38 * q == n + (-2 * q) * p == n - 2 * q * p
  {
  }

  lemma {:induction false} CarryBound(s: seq<int>, i: nat)
    requires |s| == 16 && i <= 16
    requires Within(s, -0x4000_0000_0000_0000, 0x4000_0000_0000_0000)
    ensures -0x4000_8000_0000 <= CarryIn(s, i) <= 0x4000_8000_0000
  {
    if i > 0 {
      CarryBound(s, i - 1);
    }
  }

  /** The first pass leaves only the bottom limb out of range. */
  lemma FirstPass(s: seq<int>)
    requires |s| == 16
    requires Within(s, -0x4000_0000_0000_0000, 0x4000_0000_0000_0000)
    ensures var r := CarryPass(s);
            -0x10_0000_0000_0000 <= r[0] < 0x10_0000_0000_0000 && Within(r[1..], 0, B)
  {
    CarryBound(s, 16);
  }

  lemma {:induction false} SecondCarries(s: seq<int>, i: nat)
    requires |s| == 16 && 3 <= i <= 16
    requires -0x10_0000_0000_0000 <= s[0] < 0x10_0000_0000_0000 && Within(s[1..], 0, B)
    ensures i >= 4 ==> -1 <= CarryIn(s, i) <= 1
    ensures -17 <= CarryIn(s, i) <= 17
  {
    forall k | 1 <= k < 16
      ensures 0 <= s[k] < B
    {
      assert s[k] == s[1..][k - 1];
    }
    if i > 3 {
      SecondCarries(s, i - 1);
    } else {
      assert -0x10_0000_0000 <= CarryIn(s, 1) <= 0x10_0000_0000;
      assert -0x10_0000 <= CarryIn(s, 2) <= 0x10_0001;
    }
  }

  /** The second pass leaves every limb within 38 of its range. */
  lemma SecondPass(s: seq<int>)
    requires |s| == 16
    requires -0x10_0000_0000_0000 <= s[0] < 0x10_0000_0000_0000 && Within(s[1..], 0, B)
    ensures var r := CarryPass(s);
            -38 <= r[0] < B + 38 && Within(r[1..], 0, B)
  {
    SecondCarries(s, 16);
  }

  lemma {:induction false} ThirdCarries(s: seq<int>, i: nat)
    requires |s| == 16 && 1 <= i <= 16
    requires -38 <= s[0] < B + 38 && Within(s[1..], 0, B)
    ensures s[0] < 0 ==> -1 <= CarryIn(s, i) <= 0
    ensures 0 <= s[0] < B ==> CarryIn(s, i) == 0
    ensures s[0] >= B ==> 0 <= CarryIn(s, i) <= 1
  {
    if i > 1 {
      ThirdCarries(s, i - 1);
      assert s[i - 1] == s[1..][i - 2];
    } else {
      assert CarryIn(s, 0) == 0;
    }
  }

  /** The third pass brings every limb into range. */
  lemma ThirdPass(s: seq<int>)
    requires |s| == 16
    requires -38 <= s[0] < B + 38 && Within(s[1..], 0, B)
    ensures Digits(CarryPass(s), B)
  {
    ThirdCarries(s, 16);
    assert CarryIn(s, 0) == 0;
  }

  /** A limb list after the first or second pass is again small enough to carry. */
  lemma Spread(s: seq<int>)
    requires |s| == 16 && -0x10_0000_0000_0000 <= s[0] < 0x10_0000_0000_0000 && Within(s[1..], 0, B)
    ensures Within(s, -0x4000_0000_0000_0000, 0x4000_0000_0000_0000)
  {
    forall i | 0 <= i < 16
      ensures -0x4000_0000_0000_0000 <= s[i] < 0x4000_0000_0000_0000
    {
      assert i > 0 ==> s[i] == s[1..][i - 1];
    }
  }

  /** One step of the pass: limb i is reduced and its carry moves up, or around. */
  method CarryStep(o: array<int>, i: nat)
    requires o.Length == 16 && i < 16
    requires forall k :: 0 <= k < 16 ==> -0x7000_0000_0000_0000 <= o[k] <= 0x7000_0000_0000_0000
    modifies o
    ensures o[i] == old(o[i]) % B
    ensures i < 15 ==> o[i + 1] == old(o[i + 1]) + old(o[i]) / B
    ensures i == 15 ==> o[0] == old(o[0]) + 38 * (old(o[i]) / B)
    ensures forall k :: 0 <= k < 16 && k != i && k != (i + 1) % 16 ==> o[k] == old(o[k])
  {
    var x := o[i];
    assert Int64(x + 0x1_0000);
    o[i] := x + 0x1_0000;
    var c := o[i] / 0x1_0000;
    assert c - 1 == x / B;
    var next := if i < 15 then i + 1 else 0;
    var wrap := if i == 15 then 37 * (c - 1) else 0;
    assert Int64(37 * (c - 1)) && Int64(o[next] + (c - 1 + wrap)) && Int64(c * 0x1_0000);
    o[next] := o[next] + (c - 1 + wrap);
    o[i] := o[i] - c * 0x1_0000;
  }

  method Carry(o: array<int>)
    requires o.Length == 16 && Within(o[..], -0x4000_0000_0000_0000, 0x4000_0000_0000_0000)
    modifies o
    ensures o[..] == CarryPass(old(o[..]))
  {
    ghost var s := o[..];
    assert CarryIn(s, 0) == 0;
    hide CarryIn, Reduced, CarryPass;
    for i := 0 to 16
      invariant forall k :: i < k < 16 ==> o[k] == s[k]
      invariant i < 16 ==> o[i] == s[i] + CarryIn(s, i)
      invariant forall k :: 1 <= k < i ==> o[k] == Reduced(s)[k]
      invariant i > 0 ==> o[0] == Reduced(s)[0] + if i == 16 then 38 * CarryIn(s, 16) else 0
    {
      CarryBound(s, i);
      CarryBound(s, i + 1);
      ReducedIs(s, i);
      CarryStep(o, i);
    }
    CarryPassIs(s, o[..]);
  }

  lemma ReducedIs(s: seq<int>, i: nat)
    requires i < |s|
    ensures Reduced(s)[i] == (s[i] + CarryIn(s, i)) % B
    ensures CarryIn(s, i + 1) == (s[i] + CarryIn(s, i)) / B
    ensures forall k :: 0 <= k < |s| ==> 0 <= Reduced(s)[k] < B
  {
  }

  lemma CarryPassIs(s: seq<int>, t: seq<int>)
    requires |s| == |t| == 16
    requires forall k :: 1 <= k < 16 ==> t[k] == Reduced(s)[k]
    requires t[0] == Reduced(s)[0] + 38 * CarryIn(s, 16)
    ensures t == CarryPass(s)
  {
    hide Reduced, CarryIn;
  }
}
