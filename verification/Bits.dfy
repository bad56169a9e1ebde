/** Bytes, powers of two and bit strings, shared by the codec models.

  Machine words are modelled as naturals; `Or` and `Xor` are the bitwise
  operators written out, so that every shift and mask of the source can be
  followed by induction. Bit strings are sequences of booleans. */
module Bits {

  type Byte = b: int | 0 <= b < 256

  datatype Option<+T> = None | Some(value: T)

  function Pow2(n: nat): (r: nat)
    ensures r >= 1
  {
    if n == 0 then 1 else 2 * Pow2(n - 1)
  }

  lemma {:induction false} Pow2Add(a: nat, b: nat)
    ensures Pow2(a + b) == Pow2(a) * Pow2(b)
  {
    if a > 0 {
      Pow2Add(a - 1, b);
    }
  }

  lemma Pow2Word()
    ensures Pow2(16) == 0x1_0000 && Pow2(31) == 0x8000_0000 && Pow2(32) == 0x1_0000_0000
  {
    assert Pow2(8) == 256;
    Pow2Add(8, 8);
    Pow2Add(16, 16);
  }

  lemma {:induction false} Pow2Monotone(a: nat, b: nat)
    requires a <= b
    ensures Pow2(a) <= Pow2(b)
  {
    if a < b {
      Pow2Monotone(a, b - 1);
    }
  }

  /** The n low bits of v, least significant first. */
  function LowBits(v: nat, n: nat): (r: seq<bool>)
    ensures |r| == n
  {
    if n == 0 then [] else [v % 2 == 1] + LowBits(v / 2, n - 1)
  }

  /** Bit k of v. */
  function BitAt(v: nat, k: nat): (r: nat)
    ensures r < 2
  {
    (v / Pow2(k)) % 2
  }

  /** The n low bits of v, most significant first: the order of Huffman codes. */
  function HighFirst(v: nat, n: nat): (r: seq<bool>)
    ensures |r| == n
  {
    if n == 0 then [] else [BitAt(v, n - 1) == 1] + HighFirst(v, n - 1)
  }

  /** The number a bit string denotes, least significant bit first. */
  function LowValue(s: seq<bool>): (r: nat) {
    if s == [] then 0 else (if s[0] then 1 else 0) + 2 * LowValue(s[1..])
  }

  /** The number a bit string denotes, most significant bit first. */
  function HighValue(s: seq<bool>): (r: nat) {
    if s == [] then 0 else 2 * HighValue(s[..|s| - 1]) + (if s[|s| - 1] then 1 else 0)
  }

  lemma SeqAssoc<T>(a: seq<T>, b: seq<T>, c: seq<T>)
    ensures (a + b) + c == a + (b + c)
  {
  }

  /** Bytes to bits, each byte least significant bit first (RFC 1951, section 3.1.1). */
  function BytesToBits(s: seq<Byte>): (r: seq<bool>)
    ensures |r| == 8 * |s|
  {
    if s == [] then [] else BytesToBits(s[..|s| - 1]) + LowBits(s[|s| - 1], 8)
  }

  lemma BytesToBitsSnoc(s: seq<Byte>, b: Byte)
    ensures BytesToBits(s + [b]) == BytesToBits(s) + LowBits(b, 8)
  {
    assert (s + [b])[..|s|] == s;
  }

  lemma {:induction false} BytesToBitsConcat(s: seq<Byte>, t: seq<Byte>)
    ensures BytesToBits(s + t) == BytesToBits(s) + BytesToBits(t)
  {
    if t == [] {
      assert s + t == s;
    } else {
      var u, b := t[..|t| - 1], t[|t| - 1];
      assert s + t == (s + u) + [b];
      BytesToBitsSnoc(s + u, b);
      BytesToBitsConcat(s, u);
      SeqAssoc(BytesToBits(s), BytesToBits(u), LowBits(b, 8));
    }
  }

  lemma {:induction false} LowValueOfLowBits(v: nat, n: nat)
    requires v < Pow2(n)
    ensures LowValue(LowBits(v, n)) == v
  {
    if n > 0 {
      LowValueOfLowBits(v / 2, n - 1);
      assert LowBits(v, n)[1..] == LowBits(v / 2, n - 1);
    }
  }

  /** Concatenating bit strings adds the shifted numbers. */
  lemma {:induction false} LowBitsConcat(a: nat, n: nat, b: nat, m: nat)
    requires a < Pow2(n)
    ensures LowBits(a + b * Pow2(n), n + m) == LowBits(a, n) + LowBits(b, m)
  {
    if n == 0 {
      assert LowBits(a, 0) + LowBits(b, m) == LowBits(b, m);
    } else {
      var p := Pow2(n - 1);
      var v := a + b * Pow2(n);
      assert b * Pow2(n) == 2 * (b * p);
      assert v % 2 == a % 2 && v / 2 == a / 2 + b * p;
      LowBitsConcat(a / 2, n - 1, b, m);
      assert LowBits(v, n + m) == [a % 2 == 1] + (LowBits(a / 2, n - 1) + LowBits(b, m));
    }
  }

  // ---- bitwise operators on naturals ----

  function Or(a: nat, b: nat): (r: nat) {
    if a == 0 && b == 0 then 0
    else (if a % 2 == 1 || b % 2 == 1 then 1 else 0) + 2 * Or(a / 2, b / 2)
  }

  function And(a: nat, b: nat): (r: nat) {
    if a == 0 || b == 0 then 0
    else (if a % 2 == 1 && b % 2 == 1 then 1 else 0) + 2 * And(a / 2, b / 2)
  }

  lemma {:induction false} AndOnes(b: nat, n: nat)
    requires b < Pow2(n)
    ensures And(Pow2(n) - 1, b) == b
  {
    if n > 0 && b > 0 {
      AndOnes(b / 2, n - 1);
    }
  }

  function Xor(a: nat, b: nat): (r: nat) {
    if a == 0 && b == 0 then 0
    else (if a % 2 != b % 2 then 1 else 0) + 2 * Xor(a / 2, b / 2)
  }

  lemma {:induction false} OrZero(b: nat)
    ensures Or(0, b) == b && Or(b, 0) == b
  {
    if b > 0 {
      OrZero(b / 2);
    }
  }

  /** Or of numbers with disjoint bit ranges is their sum. */
  lemma {:induction false} OrDisjoint(a: nat, b: nat, n: nat)
    requires a < Pow2(n)
    ensures Or(a, b * Pow2(n)) == a + b * Pow2(n) == Or(b * Pow2(n), a)
  {
    if n == 0 {
      OrZero(b);
    } else {
      var p := Pow2(n - 1);
      var v := b * Pow2(n);
      assert v == 2 * (b * p);
      assert v % 2 == 0 && v / 2 == b * p;
      OrDisjoint(a / 2, b, n - 1);
    }
  }

  lemma {:induction false} XorZero(b: nat)
    ensures Xor(0, b) == b && Xor(b, 0) == b
  {
    if b > 0 {
      XorZero(b / 2);
    }
  }

  lemma {:induction false} XorSelf(a: nat)
    ensures Xor(a, a) == 0
  {
    if a > 0 {
      XorSelf(a / 2);
    }
  }

  lemma {:induction false} XorCommutes(a: nat, b: nat)
    ensures Xor(a, b) == Xor(b, a)
  {
    if a != 0 || b != 0 {
      XorCommutes(a / 2, b / 2);
    }
  }

  lemma {:induction false} XorHalves(a: nat, b: nat)
    ensures Xor(a, b) % 2 == (if a % 2 != b % 2 then 1 else 0)
    ensures Xor(a, b) / 2 == Xor(a / 2, b / 2)
  {
    if a != 0 || b != 0 {
      var high := Xor(a / 2, b / 2);
      var low := if a % 2 != b % 2 then 1 else 0;
      assert Xor(a, b) == low + 2 * high;
      hide Xor;
      Parity(low, high);
    }
  }

  lemma Parity(low: nat, high: nat)
    requires low < 2
    ensures (low + 2 * high) % 2 == low && (low + 2 * high) / 2 == high
  {
  }

  lemma {:induction false} XorAssociates(a: nat, b: nat, c: nat)
    ensures Xor(Xor(a, b), c) == Xor(a, Xor(b, c))
    decreases a + b + c
  {
    if a != 0 || b != 0 || c != 0 {
      XorHalves(a, b);
      XorHalves(b, c);
      XorHalves(Xor(a, b), c);
      XorHalves(a, Xor(b, c));
      XorAssociates(a / 2, b / 2, c / 2);
    }
  }

  lemma {:induction false} XorBound(a: nat, b: nat, n: nat)
    requires a < Pow2(n) && b < Pow2(n)
    ensures Xor(a, b) < Pow2(n)
  {
    if a != 0 || b != 0 {
      XorBound(a / 2, b / 2, n - 1);
    }
  }

  lemma {:induction false} XorDisjoint(a: nat, b: nat, n: nat)
    requires a < Pow2(n)
    ensures Xor(a, b * Pow2(n)) == a + b * Pow2(n)
  {
    if n == 0 {
      XorZero(b);
    } else {
      var p := Pow2(n - 1);
      var v := b * Pow2(n);
      assert v == 2 * (b * p);
      assert v % 2 == 0 && v / 2 == b * p;
      XorDisjoint(a / 2, b, n - 1);
      XorHalves(a, v);
    }
  }
}
