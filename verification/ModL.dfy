/** Reduction of a 512-bit number modulo the order L of the Ed25519 base point
  (section 5.1 of RFC 8032), on sixty-four signed base-256 digits in place. */
module ModL {
  import opened Arith
  import opened Bits
  import opened Limbs
  import opened Field25519

  const L: int := 7237005577332262213973186563042994240857116359379907606001950938285454250989
  const L_BYTES: seq<int> := [
    0xed, 0xd3, 0xf5, 0x5c, 0x1a, 0x63, 0x12, 0x58, 0xd6, 0x9c, 0xf7, 0xa2, 0xde, 0xf9, 0xde, 0x14,
    0, 0, 0, 0, 0, 0, 0, 0, 0, 0, 0, 0, 0, 0, 0, 0x10]
  /** L without its top digit. */
  const LOW: int := 27742317777372353535851937790883648493

  /** Digit i of L. */
  function Order(i: nat): int
    requires i < 32
  {
    L_BYTES[i]
  }

  function OrderPrefix(k: nat): seq<int>
    requires k <= 32
  {
    L_BYTES[..k]
  }

  lemma OrderDigits(k: nat)
    requires k < 32
    ensures 0 <= Order(k) < 256 && (16 <= k < 31 ==> Order(k) == 0)
    ensures OrderPrefix(0) == [] && OrderPrefix(k + 1) == OrderPrefix(k) + [Order(k)] && |OrderPrefix(k)| == k
  {
  }

  lemma LowDigits()
    ensures Num(OrderPrefix(16), 256) == LOW
  {
    hide Num;
    var s := L_BYTES[..16];
    HighHalf(s);
    NumFrom(s, 7);
    NumFrom(s, 6);
    NumFrom(s, 5);
    NumFrom(s, 4);
    NumFrom(s, 3);
    NumFrom(s, 2);
    NumFrom(s, 1);
    NumFrom(s, 0);
    assert s[0..] == s;
  }

  lemma HighHalf(s: seq<int>)
    requires s == L_BYTES[..16]
    ensures Num(s[8..], 256) == 0x14def9dea2f79cd6
  {
    hide Num;
    NumFrom(s, 15);
    NumFrom(s, 14);
    NumFrom(s, 13);
    NumFrom(s, 12);
    NumFrom(s, 11);
    NumFrom(s, 10);
    NumFrom(s, 9);
    NumFrom(s, 8);
  }

  lemma NumFrom(s: seq<int>, i: nat)
    requires i < |s|
    ensures Num(s[i..], 256) == s[i] + 256 * Num(s[i + 1..], 256)
    ensures Num(s[|s|..], 256) == 0
  {
    assert s[i..][1..] == s[i + 1..];
  }

  lemma {:induction false} ZeroDigits(k: nat)
    requires 16 <= k <= 31
    ensures Num(OrderPrefix(k), 256) == LOW
  {
    hide Order, OrderPrefix;
    if k == 16 {
      LowDigits();
    } else {
      ZeroDigits(k - 1);
      OrderDigits(k - 1);
      NumSnoc(OrderPrefix(k - 1), 0, 256);
      assert Pow(256, k - 1) * 0 == 0;
    }
  }

  lemma OrderValue()
    ensures Num(OrderPrefix(20), 256) == LOW
    ensures Num(OrderPrefix(32), 256) == L == LOW + 16 * Pow(256, 31)
    ensures 16 * L == 16 * LOW + Pow(256, 32)
    ensures 0 < 100 * LOW < Pow(256, 31)
  {
    ZeroDigits(20);
    ZeroDigits(31);
    OrderDigits(31);
    NumSnoc(OrderPrefix(31), Order(31), 256);
    Power31();
    assert Order(31) == 16;
  }

  lemma Power31()
    ensures Pow(256, 31) == 452312848583266388373324160190187140051835877600158453279131187530910662656
    ensures Pow(256, 32) == 256 * Pow(256, 31)
  {
    assert Pow(256, 1) == 256 * Pow(256, 0) && Pow(256, 32) == 256 * Pow(256, 31);
    PowAdd(256, 1, 1);
    PowAdd(256, 2, 2);
    PowAdd(256, 4, 4);
    PowAdd(256, 8, 8);
    PowAdd(256, 16, 8);
    PowAdd(256, 24, 4);
    PowAdd(256, 28, 2);
    PowAdd(256, 30, 1);
  }

  // ---- first loop: clear the high digits from the top down ----

  /** A digit before it is first reduced, and one being cleared. */
  const DIGIT: int := 0x40_0000
  const TOP: int := 0x80_0000

  /** How large the carry can be after k digits of a row; every row but the
    first finds its digits already reduced. */
  function CarryLimit(first: bool, k: nat): int {
    if k <= 16 then 0x1000_0000
    else if k == 17 then 0x20_0000
    else if first then 0x8000
    else if k == 18 then 0x4000
    else if k == 19 then 66
    else 1
  }

  /** One digit of a row: subtract, then round the carry to the nearest. */
  lemma RowDigit(first: bool, k: nat, x: int, carry: int, top: int, sum: int, carry': int)
    requires k < 20
    requires -CarryLimit(first, k) <= carry <= CarryLimit(first, k)
    requires -TOP < top < TOP
    requires if first || k == 0 then -DIGIT < x < DIGIT else -128 <= x < 128
    requires sum == x + (carry - 16 * top * Order(k)) && carry' == (sum + 128) / 256
    ensures -128 <= sum - carry' * 256 < 128
    ensures -CarryLimit(first, k + 1) <= carry' <= CarryLimit(first, k + 1)
    ensures Int64(16 * top) && Int64(16 * top * Order(k)) && Int64(carry - 16 * top * Order(k)) && Int64(sum + 128)
  {
    OrderDigits(k);
    hide Order;
    var d := Order(k);
    assert -16 * TOP * 255 <= 16 * top * d <= 16 * TOP * 255 by {
      if top >= 0 {
        MulMonotone(0, top, d);
        MulMonotone(top, TOP, d);
      } else {
        MulMonotone(top, 0, d);
        MulMonotone(-TOP, top, d);
      }
    }
    if k >= 16 {
      assert 16 * top * d == 0;
    }
  }

  /** Digits from..to lie in [-128, 128). */
  ghost predicate Small(s: seq<int>, from: int, to: int) {
    forall k :: from <= k < to && 0 <= k < |s| ==> -128 <= s[k] < 128
  }

  /** Row i after k of its digits: the number is short by what was subtracted,
    up to the carry still in hand. */
  ghost predicate InRow(s0: seq<int>, s: seq<int>, i: nat, k: nat, carry: int)
    requires 32 <= i < 64 && k <= 20
  {
    && |s0| == |s| == 64
    && (forall j :: 0 <= j < 64 && !(i - 32 <= j < i - 32 + k) ==> s[j] == s0[j])
    && Small(s, i - 32, i - 32 + k)
    && Num(s, 256) + Pow(256, i - 32 + k) * carry
       == Num(s0, 256) - Pow(256, i - 32) * (16 * s0[i] * Num(OrderPrefix(k), 256))
  }

  lemma RowStart(s: seq<int>, i: nat)
    requires 32 <= i < 64 && |s| == 64
    ensures InRow(s, s, i, 0, 0)
  {
    assert OrderPrefix(0) == [];
    hide Pow, OrderPrefix;
    assert Num([], 256) == 0;
    assert Pow(256, i - 32) * (16 * s[i] * 0) == 0 == Pow(256, i - 32 + 0) * 0;
  }

  lemma RowNext(s0: seq<int>, s: seq<int>, s': seq<int>, i: nat, k: nat, carry: int, carry': int)
    requires 32 <= i < 64 && k < 20 && InRow(s0, s, i, k, carry)
    requires s' == s[i - 32 + k := s[i - 32 + k] + (carry - 16 * s0[i] * Order(k)) - carry' * 256]
    requires -128 <= s'[i - 32 + k] < 128
    ensures InRow(s0, s', i, k + 1, carry')
  {
    hide Num, Pow, Order, OrderPrefix;
    var b := i - 32;
    OrderDigits(k);
    NumUpdate(s, b + k, carry - 16 * s0[i] * Order(k) - carry' * 256, 256);
    NumSnoc(OrderPrefix(k), Order(k), 256);
    PowAdd(256, b, k);
    PowNext(256, b + k);
    RowArith(Pow(256, b), Pow(256, k), s0[i], Order(k), Num(OrderPrefix(k), 256), carry, carry');
  }

  /** The subtraction of one digit, in units of the row's base p. */
  lemma RowArith(p: int, q: int, v: int, d: int, n: int, carry: int, carry': int)
    ensures (p * q) * (carry - 16 * v * d - carry' * 256) + (256 * (p * q)) * carry'
         == (p * q) * carry - p * (16 * v * (n + q * d)) + p * (16 * v * n)
  {
    var m, w := p * q, 16 * v;
    MulDistributes(m, carry, -(w * d) - carry' * 256);
    MulDistributes(m, -(w * d), -(carry' * 256));
    assert m * (carry' * 256) == (256 * m) * carry';
    MulDistributes(w, n, q * d);
    MulDistributes(p, w * n, w * (q * d));
    assert m * (w * d) == p * (w * (q * d)) by {
      assert w * (q * d) == q * (w * d);
      MulAssociates(p, q, w * d);
    }
  }

  /** Row i done: the top digit is gone and the number is smaller by a multiple of L. */
  lemma RowDone(s0: seq<int>, s: seq<int>, s': seq<int>, i: nat, carry: int)
    requires 32 <= i < 64 && InRow(s0, s, i, 20, carry)
    requires s' == s[i - 12 := s[i - 12] + carry][i := 0]
    ensures Num(s', 256) == Num(s0, 256) - (16 * s0[i] * Pow(256, i - 32)) * L
  {
    hide Num, Pow, OrderPrefix;
    var b, t := i - 32, s[i - 12 := s[i - 12] + carry];
    NumUpdate(s, i - 12, carry, 256);
    assert s' == t[i := t[i] + (-s0[i])];
    NumUpdate(t, i, -s0[i], 256);
    PowAdd(256, b, 32);
    OrderValue();
    DoneArith(Pow(256, b), Pow(256, 32), s0[i], LOW, L);
  }

  lemma DoneArith(p: int, q: int, v: int, low: int, l: int)
    requires 16 * l == 16 * low + q
    ensures -(p * (16 * v * low)) + (p * q) * (-v) == -((16 * v * p) * l)
  {
    assert (16 * v * p) * l == (v * p) * (16 * l) == (v * p) * (16 * low) + (v * p) * q;
  }

  /** What the digits look like once rows 63 down to i are done. */
  ghost predicate Cleared(s: seq<int>, i: nat)
    requires 32 <= i <= 64
  {
    && |s| == 64
    && (forall k :: i <= k < 64 ==> s[k] == 0)
    && (forall k :: 0 <= k < 64 ==> -TOP < s[k] < TOP)
    && (forall k :: 0 <= k < i - 32 ==> -DIGIT < s[k] < DIGIT)
    && (i == 64 ==> forall k :: 0 <= k < 64 ==> -DIGIT < s[k] < DIGIT)
    && (i < 64 ==> Small(s, i - 32, i - 12))
    && (forall k :: i - 12 <= k < i && k <= 50 ==> -129 <= s[k] <= 128)
  }

  /** One row: subtracts a multiple of L that clears digit i. */
  method ClearDigit(x: array<int>, i: nat)
    requires x.Length == 64 && 32 <= i < 64 && Cleared(x[..], i + 1)
    modifies x
    ensures Cleared(x[..], i)
    ensures Num(x[..], 256) == old(Num(x[..], 256)) - (16 * old(x[i]) * Pow(256, i - 32)) * L
  {
    hide Num, Pow, Order, OrderPrefix, CarryLimit;
    ghost var s0, first := x[..], i == 63;
    var carry := 0;
    RowStart(s0, i);
    FirstLimit(first);
    for k := 0 to 20
      invariant InRow(s0, x[..], i, k, carry)
      invariant -CarryLimit(first, k) <= carry <= CarryLimit(first, k)
    {
      var j := i - 32 + k;
      ghost var s := x[..];
      var sum := x[j] + (carry - 16 * x[i] * Order(k));
      var next := (sum + 128) / 256;
      RowDigit(first, k, x[j], carry, x[i], sum, next);
      x[j] := sum;
      x[j] := x[j] - next * 256;
      RowNext(s0, s, x[..], i, k, carry, next);
      carry := next;
    }
    ghost var s := x[..];
    LastLimit(first);
    x[i - 12] := x[i - 12] + carry;
    x[i] := 0;
    assert x[..] == s[i - 12 := s[i - 12] + carry][i := 0];
    RowDone(s0, s, x[..], i, carry);
    RowCleared(s0, s, x[..], i, carry);
  }

  lemma FirstLimit(first: bool)
    ensures CarryLimit(first, 0) > 0
  {
  }

  lemma LastLimit(first: bool)
    ensures CarryLimit(first, 20) == if first then 0x8000 else 1
  {
  }

  lemma RowCleared(s0: seq<int>, s: seq<int>, s': seq<int>, i: nat, carry: int)
    requires 32 <= i < 64 && Cleared(s0, i + 1) && InRow(s0, s, i, 20, carry)
    requires if i == 63 then -0x8000 <= carry <= 0x8000 else -1 <= carry <= 1
    requires s' == s[i - 12 := s[i - 12] + carry][i := 0]
    ensures Cleared(s', i)
  {
    hide Num, Pow;
    forall k | 0 <= k < 64
      ensures -TOP < s'[k] < TOP
      ensures k < i - 32 ==> -DIGIT < s'[k] < DIGIT
      ensures i - 32 <= k < i - 12 ==> -128 <= s'[k] < 128
      ensures i - 12 <= k < i && k <= 50 ==> -129 <= s'[k] <= 128
    {
      assert i - 32 <= k < i - 12 ==> s'[k] == s[k];
      assert k < i - 32 || (i - 12 < k < i) ==> s'[k] == s0[k];
    }
  }

  /** The whole first loop: digits 32 and up become zero, modulo L nothing changes. */
  method ClearHigh(x: array<int>)
    requires x.Length == 64 && Cleared(x[..], 64)
    modifies x
    ensures Cleared(x[..], 32)
    ensures Congruent(Num(x[..], 256), old(Num(x[..], 256)), L)
  {
    hide Num, Pow, Cleared;
    ghost var n := Num(x[..], 256);
    for i := 64 downto 32
      invariant Cleared(x[..], i) && Congruent(Num(x[..], 256), n, L)
    {
      ghost var before, m := Num(x[..], 256), 16 * x[i] * Pow(256, i - 32);
      ClearDigit(x, i);
      MulDistributes(L, 0, m);
      CongruentBy(Num(x[..], 256), before, -m, L);
    }
  }

  // ---- second loop: subtract the last quotient ----

  /** The low j digits with q times L taken off, up to the carry in hand. */
  ghost predicate Subtracting(s0: seq<int>, s: seq<int>, q: int, j: nat, carry: int)
    requires j <= 32
  {
    && |s0| == |s| == 64
    && (forall k :: j <= k < 64 ==> s[k] == s0[k])
    && Digits(s[..j], 256)
    && Num(s[..j], 256) + Pow(256, j) * carry == Num(s0[..j], 256) - q * Num(OrderPrefix(j), 256)
  }

  lemma SubtractNext(s0: seq<int>, s: seq<int>, s': seq<int>, q: int, j: nat, carry: int, sum: int)
    requires j < 32 && Subtracting(s0, s, q, j, carry)
    requires sum == s0[j] + (carry - q * Order(j)) && s' == s[j := sum % 256]
    ensures Subtracting(s0, s', q, j + 1, sum / 256)
  {
    hide Num, Pow, Order, OrderPrefix;
    OrderDigits(j);
    assert s'[..j + 1] == s[..j] + [sum % 256] && s0[..j + 1] == s0[..j] + [s0[j]];
    NumSnoc(s[..j], sum % 256, 256);
    NumSnoc(s0[..j], s0[j], 256);
    NumSnoc(OrderPrefix(j), Order(j), 256);
    PowNext(256, j);
    SubtractArith(Pow(256, j), s0[j], carry, q, Order(j), Num(OrderPrefix(j), 256), sum);
  }

  lemma SubtractArith(p: int, x: int, carry: int, q: int, d: int, n: int, sum: int)
    requires sum == x + (carry - q * d)
    ensures p * (sum % 256) + (256 * p) * (sum / 256) == p * x + p * carry - q * (n + p * d) + q * n
  {
    assert p * (sum % 256) + (256 * p) * (sum / 256) == p * sum by {
      MulDistributes(p, sum % 256, 256 * (sum / 256));
      MulAssociates(p, 256, sum / 256);
      MulDistributes(p, 256, 0);
    }
    MulDistributes(p, x, carry - q * d);
    MulDistributes(p, carry, -(q * d));
    MulDistributes(q, n, p * d);
    assert p * (q * d) == q * (p * d);
  }

  method SubtractQuotient(x: array<int>) returns (carry: int)
    requires x.Length == 64 && Cleared(x[..], 32)
    modifies x
    ensures Digits(x[..][..32], 256) && x[32] == 0
    ensures Num(x[..][..32], 256) + Pow(256, 32) * carry == old(Num(x[..][..32], 256) - (x[31] / 16) * L)
  {
    ghost var s0 := x[..];
    ghost var q := x[31] / 16;
    hide Num, Pow, Order, OrderPrefix;
    carry := 0;
    SubtractStart(s0, q);
    for j := 0 to 32
      invariant Subtracting(s0, x[..], q, j, carry) && -20 <= carry <= 20
    {
      ghost var s := x[..];
      OrderDigits(j);
      assert x[j] == s0[j] && x[31] == s0[31];
      SmallQuotient(s0, j, Order(j));
      assert Int64((x[31] / 16) * Order(j)) && Int64(carry - (x[31] / 16) * Order(j));
      var sum := x[j] + (carry - (x[31] / 16) * Order(j));
      x[j] := sum;
      carry := x[j] / 256;
      x[j] := x[j] % 256;
      SubtractNext(s0, s, x[..], q, j, if j == 0 then 0 else sum - s0[j] + q * Order(j), sum);
    }
    OrderValue();
  }

  lemma SubtractStart(s0: seq<int>, q: int)
    requires |s0| == 64
    ensures Subtracting(s0, s0, q, 0, 0)
  {
    assert s0[..0] == [] && OrderPrefix(0) == [];
    assert q * 0 == 0;
  }

  lemma SmallQuotient(s: seq<int>, j: nat, d: int)
    requires Cleared(s, 32) && j < 32 && 0 <= d < 256
    ensures -129 <= s[j] <= 128 && -9 <= s[31] / 16 <= 8
    ensures -9 * 255 <= (s[31] / 16) * d <= 8 * 255
  {
    assert j < 20 ==> -128 <= s[j] < 128;
    var q := s[31] / 16;
    MulMonotone(-9, q, d);
    MulMonotone(q, 8, d);
  }

  // ---- the remainder lies within L of zero ----

  lemma {:induction false} SignedBound(s: seq<int>)
    requires forall k :: 0 <= k < |s| ==> -129 <= s[k] <= 128
    ensures -129 * (Pow(256, |s|) - 1) <= 255 * Num(s, 256) <= 129 * (Pow(256, |s|) - 1)
  {
    if s != [] {
      SignedBound(s[1..]);
      PowNext(256, |s| - 1);
      assert Num(s, 256) == s[0] + 256 * Num(s[1..], 256);
    }
  }

  lemma RemainderBound(s: seq<int>)
    requires Cleared(s, 32)
    ensures -L < Num(s[..32], 256) - (s[31] / 16) * L < L
  {
    forall k | 0 <= k < 32
      ensures -129 <= s[k] <= 128
    {
      SmallQuotient(s, k, 0);
    }
    assert s[..32] == s[..31] + [s[31]];
    hide Num, Pow;
    NumSnoc(s[..31], s[31], 256);
    SignedBound(s[..31]);
    SmallQuotient(s, 31, 0);
    OrderValue();
    Power31();
    RemainderArith(Num(s[..31], 256), Pow(256, 31), s[31], s[31] / 16, s[31] % 16);
  }

  lemma RemainderArith(r: int, p: int, x: int, q: int, m: int)
    requires p == 452312848583266388373324160190187140051835877600158453279131187530910662656
    requires -129 * p < 255 * r < 129 * p && -9 <= q <= 8 && 0 <= m < 16 && x == 16 * q + m
    ensures -L < r + p * x - q * L < L
  {
    assert L == LOW + 16 * p;
  }

  // ---- last loops: undo a negative remainder, write the bytes ----

  /** Adds L back when the carry is -1. */
  method AddBack(x: array<int>, carry: int)
    requires x.Length == 64 && Digits(x[..][..32], 256) && -1 <= carry <= 0
    modifies x
    ensures Num(x[..][..32], 256) == old(Num(x[..][..32], 256)) - carry * L
    ensures (forall k :: 0 <= k < 32 ==> 0 <= x[k] < 512) && x[32] == old(x[32])
  {
    ghost var s := x[..];
    hide Num, Order, OrderPrefix;
    for j := 0 to 32
      invariant forall k :: 0 <= k < j ==> x[k] == s[k] - carry * Order(k) && 0 <= x[k] < 512
      invariant forall k :: j <= k < 64 ==> x[k] == s[k]
    {
      OrderDigits(j);
      assert s[j] == s[..32][j];
      x[j] := x[j] - carry * Order(j);
    }
    OrderValue();
    AddBackValue(s[..32], x[..][..32], carry);
  }

  lemma AddBackValue(s: seq<int>, t: seq<int>, carry: int)
    requires |s| == |t| == 32 && forall k :: 0 <= k < 32 ==> t[k] == s[k] - carry * Order(k)
    ensures Num(t, 256) == Num(s, 256) - carry * Num(OrderPrefix(32), 256)
  {
    hide Num, Order, OrderPrefix;
    var l := OrderPrefix(32);
    OrderIndex();
    forall i | 0 <= i < 32
      ensures t[i] == s[i] + (-carry) * l[i]
    {
      Negated(carry, l[i]);
    }
    ScaledSum(s, l, -carry, t);
    Negated(carry, Num(l, 256));
  }

  lemma Negated(c: int, d: int)
    ensures (-c) * d == -(c * d)
  {
  }

  lemma OrderIndex()
    ensures |OrderPrefix(32)| == 32 && forall i :: 0 <= i < 32 ==> Order(i) == OrderPrefix(32)[i]
  {
  }

  lemma {:induction false} ScaledSum(s: seq<int>, r: seq<int>, c: int, sum: seq<int>)
    requires |s| == |r| == |sum| && forall i :: 0 <= i < |s| ==> sum[i] == s[i] + c * r[i]
    ensures Num(sum, 256) == Num(s, 256) + c * Num(r, 256)
  {
    if s != [] {
      ScaledSum(s[1..], r[1..], c, sum[1..]);
      var n, m := Num(s[1..], 256), Num(r[1..], 256);
      assert sum[0] + 256 * (n + c * m) == s[0] + 256 * n + c * (r[0] + 256 * m) by {
        MulDistributes(c, r[0], 256 * m);
      }
    }
  }

  /** Propagates the carries and writes 32 bytes: the number modulo 2^256. */
  method WriteBytes(r: array<Byte>, x: array<int>) returns (ghost high: int)
    requires r.Length >= 32 && x.Length == 64 && x[32] == 0
    requires forall k :: 0 <= k < 32 ==> 0 <= x[k] < 512
    modifies r, x
    ensures Num(r[..32], 256) + Pow(256, 32) * high == old(Num(x[..][..32], 256))
    ensures forall k :: 32 <= k < r.Length ==> r[k] == old(r[k])
  {
    ghost var s := x[..];
    hide Num, Pow;
    high := 0;
    WriteStart(r[..0], s);
    for i := 0 to 32
      invariant forall k :: i < k < 64 ==> x[k] == s[k]
      invariant x[i] == s[i] + high && 0 <= high <= 3
      invariant Num(r[..i], 256) + Pow(256, i) * high == Num(s[..i], 256)
      invariant forall k :: 32 <= k < r.Length ==> r[k] == old(r[k])
    {
      ghost var before := r[..i];
      x[i + 1] := x[i + 1] + x[i] / 256;
      r[i] := x[i] % 256;
      assert r[..i + 1] == before + [x[i] % 256] && s[..i + 1] == s[..i] + [s[i]];
      NumSnoc(before, x[i] % 256, 256);
      NumSnoc(s[..i], s[i], 256);
      PowNext(256, i);
      WriteArith(Pow(256, i), s[i], high, x[i]);
      high := x[i] / 256;
    }
  }

  lemma WriteStart(r: seq<Byte>, s: seq<int>)
    requires r == []
    ensures Num(r, 256) + Pow(256, 0) * 0 == Num(s[..0], 256)
  {
    assert s[..0] == [];
  }

  lemma WriteArith(p: int, x: int, high: int, y: int)
    requires y == x + high
    ensures p * (y % 256) + (256 * p) * (y / 256) == p * x + p * high
  {
    MulDistributes(p, y % 256, 256 * (y / 256));
    MulAssociates(p, 256, y / 256);
    MulDistributes(p, 256, 0);
    MulDistributes(p, x, high);
  }

  /** ed_modL: the exact least residue modulo L, for every list of sixty-four
    digits below 2^22 in absolute value (bytes, or the sums of byte products
    that signing passes). */
  method Reduce64(r: array<Byte>, x: array<int>)
    requires r.Length >= 32 && x.Length == 64
    requires forall k :: 0 <= k < 64 ==> -DIGIT < x[k] < DIGIT
    modifies r, x
    ensures Num(r[..32], 256) == old(Num(x[..], 256)) % L
    ensures forall k :: 32 <= k < r.Length ==> r[k] == old(r[k])
  {
    hide Num, Pow;
    ghost var n := Num(x[..], 256);
    ClearHigh(x);
    ghost var v, q := Num(x[..][..32], 256), x[31] / 16;
    HighZero(x[..]);
    RemainderBound(x[..]);
    var carry := SubtractQuotient(x);
    ghost var w := Num(x[..][..32], 256);
    NumBound(x[..][..32], 256);
    OrderValue();
    assert 0 <= w < Pow(256, 32);
    RemainderCarry(w, carry, v - q * L, Pow(256, 32));
    AddBack(x, carry);
    ghost var high := WriteBytes(r, x);
    NumBound(r[..32], 256);
    Residue(n, v, q, w, carry, high, Num(r[..32], 256), Pow(256, 32));
  }

  lemma HighZero(s: seq<int>)
    requires Cleared(s, 32)
    ensures Num(s, 256) == Num(s[..32], 256)
  {
    hide Num, Pow;
    assert s == s[..32] + s[32..];
    NumConcat(s[..32], s[32..], 256);
    assert s[32..] == seq(32, i => 0);
    NumZero(32, 256);
    assert Pow(256, 32) * 0 == 0;
  }

  /** The carry out is 0 for a non-negative remainder and -1 for a negative one. */
  lemma RemainderCarry(w: int, carry: int, rem: int, m: int)
    requires 0 <= w < m && w + m * carry == rem && -L < rem < L && L < m
    ensures carry == if rem >= 0 then 0 else -1
  {
    if carry >= 1 {
      MulMonotone(1, carry, m);
    } else if carry <= -2 {
      MulMonotone(carry, -2, m);
    }
  }

  /** A dropped 2^256 cancels the one a carry of -1 stands for. */
  lemma Residue(n: int, v: int, q: int, w: int, carry: int, high: int, r: int, m: int)
    requires Congruent(v, n, L) && L < m && 0 <= r < m
    requires w + m * carry == v - q * L && -L < v - q * L < L
    requires carry == if v - q * L >= 0 then 0 else -1
    requires r + m * high == w - carry * L
    ensures r == n % L
  {
    var rem := v - q * L;
    assert high == -carry && r == (if rem >= 0 then rem else rem + L) by {
      if rem >= 0 {
        DivUnique(w, m, high, r);
        DivUnique(w, m, 0, w);
      } else {
        DivUnique(w + L, m, high, r);
        DivUnique(w + L, m, 1, rem + L);
      }
    }
    DivUnique(v, L, if rem >= 0 then q else q - 1, r);
  }

  /** ed_reduce: replaces sixty-four bytes by the least residue of their number. */
  method Reduce(r: array<Byte>)
    requires r.Length == 64
    modifies r
    ensures Num(r[..32], 256) == old(Num(r[..], 256)) % L
    ensures forall k :: 32 <= k < 64 ==> r[k] == 0
  {
    hide Num;
    ghost var s := r[..];
    var x := new int[64];
    for i := 0 to 64
      invariant forall k :: 0 <= k < i ==> x[k] == s[k]
      invariant r[..] == s
    {
      x[i] := r[i];
    }
    assert x[..] == s;
    for i := 0 to 64
      invariant forall k :: 0 <= k < i ==> r[k] == 0
      invariant x[..] == s
    {
      r[i] := 0;
    }
    assert forall k :: 0 <= k < 64 ==> x[k] == s[k];
    Reduce64(r, x);
  }
}
