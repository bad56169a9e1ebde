/** Canonical packing: three carries, two conditional subtractions of P, and
  the 32 bytes of the one residue in [0, P). */
module Pack25519 {
  import opened Arith
  import opened Bits
  import opened Limbs
  import opened Field25519

  const P_LIMBS: seq<int> := [
    0xffed, 0xffff, 0xffff, 0xffff, 0xffff, 0xffff, 0xffff, 0xffff,
    0xffff, 0xffff, 0xffff, 0xffff, 0xffff, 0xffff, 0xffff, 0x7fff]

  /** The value of the first i limbs of P. */
  function Modulo(i: nat): int
    requires i <= 16
  {
    if i == 0 then 0 else if i <= 15 then Pow(B, i) - 19 else P
  }

  lemma ModuloSnoc(i: nat)
    requires i < 16
    ensures |P_LIMBS| == 16 && 0 < P_LIMBS[i] < B
    ensures Modulo(i + 1) == Modulo(i) + Pow(B, i) * P_LIMBS[i]
  {
    assert Pow(B, i + 1) == B * Pow(B, i);
    if i == 0 {
      assert Pow(B, 0) == 1;
    } else if i == 15 {
      Modulus();
      assert P_LIMBS[15] == 0x7fff;
    } else {
      assert P_LIMBS[i] == 0xffff;
    }
  }

  // ---- the masked exchange ----

  const WORD := 0x1_0000_0000_0000_0000

  /** A limb as a 64-bit word in two's complement, and back. */
  function Word(x: int): (w: nat)
    ensures w < WORD
  {
    x % WORD
  }

  function Signed(w: nat): int {
    if w < 0x8000_0000_0000_0000 then w else w - WORD
  }

  ghost predicate Int64(s: seq<int>) {
    Within(s, -0x8000_0000_0000_0000, 0x8000_0000_0000_0000)
  }

  lemma SignedWord(x: int)
    requires -0x8000_0000_0000_0000 <= x < 0x8000_0000_0000_0000
    ensures Signed(Word(x)) == x
  {
    if x < 0 {
      assert (x + WORD) % WORD == x + WORD;
    }
  }

  /** ~(b - 1) on words. */
  function Mask(b: nat): nat {
    WORD - 1 - Word(b - 1)
  }

  lemma WordBits()
    ensures Pow2(64) == WORD
  {
    Pow2Word();
    Pow2Add(32, 32);
  }

  /** The mask is all ones when b is 1 and all zeros when it is 0. */
  lemma Masks(b: nat, d: nat)
    requires b <= 1 && d < WORD
    ensures And(Mask(b), d) == if b == 1 then d else 0
  {
    WordBits();
    hide Pow2, And;
    if b == 1 {
      assert Mask(b) == Pow2(64) - 1;
      AndOnes(d, 64);
    } else {
      assert Mask(b) == 0;
      AndNone(d);
    }
  }

  lemma AndNone(d: nat)
    ensures And(0, d) == 0
  {
  }

  /** Adding the whole difference to both words swaps them; adding none keeps them. */
  lemma MaskedSwap(p: nat, q: nat)
    ensures Xor(p, Xor(p, q)) == q && Xor(q, Xor(p, q)) == p && Xor(p, 0) == p && Xor(q, 0) == q
  {
    hide Xor;
    XorAssociates(p, p, q);
    XorCommutes(p, q);
    XorAssociates(q, q, p);
    XorSelf(p);
    XorSelf(q);
    XorZero(p);
    XorZero(q);
  }

  /** One limb of each, as it is computed: the difference of the two words, masked,
    is added to both. */
  method SelectLimb(x: int, y: int, c: nat, ghost b: nat) returns (x': int, y': int)
    requires Int64([x, y]) && b <= 1 && c == Mask(b)
    ensures (x', y') == if b == 1 then (y, x) else (x, y)
  {
    hide And, Xor, Mask, Pow2, Signed;
    assert Int64([x, y]) && [x, y][0] == x && [x, y][1] == y;
    SignedWord(x);
    SignedWord(y);
    hide Word;
    WordBits();
    XorBound(Word(x), Word(y), 64);
    Masks(b, Xor(Word(x), Word(y)));
    MaskedSwap(Word(x), Word(y));
    var t := And(c, Xor(Word(x), Word(y)));
    x' := Signed(Xor(Word(x), t));
    y' := Signed(Xor(Word(y), t));
  }

  /** The constant-time exchange, without a branch: it swaps the two arrays when b is
    1 and leaves them alone when it is 0. */
  method Select(p: array<int>, q: array<int>, b: nat)
    requires p.Length == q.Length == 16 && p != q && b <= 1 && Int64(p[..]) && Int64(q[..])
    modifies p, q
    ensures p[..] == old(if b == 1 then q[..] else p[..])
    ensures q[..] == old(if b == 1 then p[..] else q[..])
  {
    hide Mask;
    var c := Mask(b);
    for i := 0 to 16
      invariant forall k :: 0 <= k < i ==> p[k] == old(if b == 1 then q[k] else p[k])
      invariant forall k :: 0 <= k < i ==> q[k] == old(if b == 1 then p[k] else q[k])
      invariant forall k :: i <= k < 16 ==> p[k] == old(p[k]) && q[k] == old(q[k])
    {
      assert p[i] == old(p[..])[i] && q[i] == old(q[..])[i];
      p[i], q[i] := SelectLimb(p[i], q[i], c, b);
    }
  }

  /** Subtracting with borrow: the digits so far, the last one still unreduced. */
  ghost predicate Borrowing(t: seq<int>, m: seq<int>, i: nat) {
    && 1 <= i <= 16 && |t| == |m| == 16
    && Digits(m[..i - 1], B) && -B <= m[i - 1] < B
    && Num(m[..i], B) == Num(t[..i], B) - Modulo(i)
  }

  lemma BorrowFirst(t: seq<int>, m: seq<int>)
    requires |t| == |m| == 16 && Digits(t, B) && m[0] == t[0] - 0xffed
    ensures Borrowing(t, m, 1)
  {
    assert t[..1] == [t[0]] && m[..1] == [m[0]];
    assert ([t[0]])[1..] == [] && ([m[0]])[1..] == [] && Pow(B, 1) == B * Pow(B, 0);
  }

  /** Reducing the last digit and taking the borrow from the next one. */
  lemma BorrowNext(t: seq<int>, m: seq<int>, m': seq<int>, i: nat)
    requires i < 16 && Borrowing(t, m, i) && Digits(t, B) && |m'| == 16 == |P_LIMBS|
    requires m'[..i - 1] == m[..i - 1] && m'[i - 1] == m[i - 1] % B
    requires m'[i] == t[i] - P_LIMBS[i] - (m[i - 1] / B) % 2
    ensures Borrowing(t, m', i + 1)
  {
    hide Num, Modulo, Pow;
    ModuloSnoc(i);
    var borrow := (m[i - 1] / B) % 2;
    assert m[i - 1] % B == m[i - 1] + B * borrow;
    assert m'[..i] == m[..i - 1] + [m'[i - 1]];
    BorrowValue(t, m, m', i, borrow, P_LIMBS[i]);
  }

  lemma BorrowValue(t: seq<int>, m: seq<int>, m': seq<int>, i: nat, borrow: int, limb: int)
    requires 1 <= i < 16 && |t| == |m| == |m'| == 16
    requires m'[..i - 1] == m[..i - 1] && m'[i - 1] == m[i - 1] + B * borrow && m'[i] == t[i] - limb - borrow
    ensures Num(m'[..i + 1], B) - Num(t[..i + 1], B) == Num(m[..i], B) - Num(t[..i], B) - Pow(B, i) * limb
  {
    var low := m[..i];
    assert m'[..i] == low[i - 1 := low[i - 1] + B * borrow];
    NumUpdate(low, i - 1, B * borrow, B);
    assert m'[..i + 1] == m'[..i] + [m'[i]] && t[..i + 1] == t[..i] + [t[i]];
    NumSnoc(m'[..i], m'[i], B);
    NumSnoc(t[..i], t[i], B);
    assert Pow(B, i) == B * Pow(B, i - 1);
    hide *;
    BorrowArith(Pow(B, i - 1), Pow(B, i), borrow, t[i], limb);
  }

  lemma BorrowArith(p: int, q: int, borrow: int, t: int, limb: int)
    requires q == B * p
    ensures p * (B * borrow) + q * (t - limb - borrow) == q * t - q * limb
  {
    MulAssociates(p, B, borrow);
    MulDistributes(q, t, -limb - borrow);
    MulDistributes(q, -limb, -borrow);
  }

  /** t minus P in base 2^16, with the borrow out of the top limb. */
  method SubtractModulus(t: array<int>, m: array<int>) returns (b: nat)
    requires t.Length == m.Length == 16 && t != m && Digits(t[..], B)
    modifies m
    ensures b <= 1 && Digits(m[..], B)
    ensures Num(m[..], B) == Num(t[..], B) - P + b * Pow(B, 16)
  {
    ModuloSnoc(15);
    hide Num, Modulo, Pow;
    m[0] := t[0] - 0xffed;
    BorrowFirst(t[..], m[..]);
    for i := 1 to 15
      invariant Borrowing(t[..], m[..], i)
    {
      ghost var before := m[..];
      m[i] := t[i] - 0xffff - (m[i - 1] / B) % 2;
      m[i - 1] := m[i - 1] % B;
      assert P_LIMBS[i] == 0xffff;
      assert m[..][..i - 1] == before[..i - 1];
      BorrowNext(t[..], before, m[..], i);
    }
    ghost var before := m[..];
    m[15] := t[15] - 0x7fff - (m[14] / B) % 2;
    m[14] := m[14] % B;
    assert m[..][..14] == before[..14];
    BorrowNext(t[..], before, m[..], 15);
    b := (m[15] / B) % 2;
    ghost var last := m[..];
    m[15] := m[15] % B;
    BorrowOut(t[..], last, m[..], b);
  }

  lemma BorrowOut(t: seq<int>, m: seq<int>, m': seq<int>, b: nat)
    requires Borrowing(t, m, 16) && |m'| == 16
    requires b == (m[15] / B) % 2 && m' == m[15 := m[15] % B]
    ensures Digits(m', B) && Num(m', B) == Num(t, B) - P + b * Pow(B, 16)
  {
    hide Num, Pow;
    assert m[15] % B == m[15] + B * b;
    assert m[..16] == m && t[..16] == t && Modulo(16) == P;
    forall k | 0 <= k < 16
      ensures 0 <= m'[k] < B
    {
      assert k < 15 ==> m'[k] == m[..15][k];
    }
    NumUpdate(m, 15, B * b, B);
    TopPlace(b);
    hide *;
  }

  lemma TopPlace(b: int)
    ensures Pow(B, 15) * (B * b) == b * Pow(B, 16)
  {
    var p := Pow(B, 15);
    assert Pow(B, 16) == B * p;
    hide *;
    MulAssociates(p, B, b);
    MulDistributes(B, p, 0);
    MulDistributes(b, B * p, 0);
  }

  /** One conditional subtraction: t becomes t - P unless that is negative. */
  method ReduceOnce(t: array<int>, m: array<int>)
    requires t.Length == m.Length == 16 && t != m && Digits(t[..], B)
    modifies t, m
    ensures Digits(t[..], B)
    ensures Num(t[..], B) == if old(Num(t[..], B)) >= P then old(Num(t[..], B)) - P else old(Num(t[..], B))
  {
    hide Num, Pow;
    var b := SubtractModulus(t, m);
    NumBound(t[..], B);
    NumBound(m[..], B);
    Modulus();
    Select(t, m, 1 - b);
  }

  /** The three carries and the two subtractions: the least residue's limbs. */
  method Canonicalise(n: array<int>) returns (t: array<int>)
    requires n.Length == 16 && Within(n[..], -0x4000_0000_0000_0000, 0x4000_0000_0000_0000)
    ensures fresh(t) && t.Length == 16 && Digits(t[..], B)
    ensures Num(t[..], B) == Num(n[..], B) % P
  {
    hide CarryPass, Num, Pow, CarryIn;
    t := new int[16];
    for i := 0 to 16
      invariant forall k :: 0 <= k < i ==> t[k] == n[k]
    {
      t[i] := n[i];
    }
    ghost var s := n[..];
    assert t[..] == s;
    FirstPass(s);
    SecondPass(CarryPass(s));
    ThirdPass(CarryPass(CarryPass(s)));
    CarryValue(s);
    CarryValue(CarryPass(s));
    CarryValue(CarryPass(CarryPass(s)));
    Carry(t);
    Spread(t[..]);
    Carry(t);
    Spread(t[..]);
    Carry(t);
    NumBound(t[..], B);
    Modulus();
    var m := new int[16];
    ghost var v := Num(t[..], B);
    ReduceOnce(t, m);
    ReduceOnce(t, m);
    Residue(Num(s, B), v, Num(t[..], B));
  }

  lemma Residue(n: int, v: int, r: int)
    requires Congruent(v, n, P) && 0 <= v < 2 * P + 38
    requires r == (if v < P then v else if v < 2 * P then v - P else v - 2 * P)
    ensures r == n % P
  {
    Modulus();
    DivUnique(v, P, if v < P then 0 else if v < 2 * P then 1 else 2, r);
  }

  /** ed_pack25519: the 32 bytes of the unique residue below P. */
  method Pack(o: array<Byte>, n: array<int>)
    requires o.Length == 32 && n.Length == 16 && Within(n[..], -0x4000_0000_0000_0000, 0x4000_0000_0000_0000)
    modifies o
    ensures Num(o[..], 256) == Num(n[..], B) % P
  {
    hide Num, Pow;
    ghost var residue := Num(n[..], B) % P;
    var t := Canonicalise(n);
    BytesStart(o[..], t[..]);
    for i := 0 to 16
      invariant Digits(t[..], B) && Num(t[..], B) == residue
      invariant Num(o[..2 * i], 256) == Num(t[..i], B)
    {
      ghost var before := o[..2 * i];
      o[2 * i] := t[i] % 256;
      o[2 * i + 1] := t[i] / 256;
      assert o[..2 * i + 2] == before + [t[i] % 256] + [t[i] / 256];
      BytesNext(before, t[..i], t[i]);
      assert t[..i + 1] == t[..i] + [t[i]];
    }
    assert o[..32] == o[..] && t[..16] == t[..];
  }

  lemma BytesStart(o: seq<Byte>, t: seq<int>)
    ensures Num(o[..0], 256) == Num(t[..0], B) == 0
  {
  }

  lemma BytesNext(o: seq<int>, t: seq<int>, x: int)
    requires |o| == 2 * |t| && 0 <= x < B && Num(o, 256) == Num(t, B)
    ensures Num(o + [x % 256] + [x / 256], 256) == Num(t + [x], B)
  {
    hide Num, Pow;
    NumSnoc(o, x % 256, 256);
    NumSnoc(o + [x % 256], x / 256, 256);
    NumSnoc(t, x, B);
    SquareBase(|t|);
    PowNext(256, |o|);
    TwoBytes(Pow(256, |o|), x);
  }

  lemma TwoBytes(p: int, x: int)
    ensures p * (x % 256) + (256 * p) * (x / 256) == p * x
  {
    MulDistributes(p, x % 256, 256 * (x / 256));
    MulAssociates(p, 256, x / 256);
    MulDistributes(p, 256, 0);
  }

  lemma {:induction false} SquareBase(n: nat)
    ensures Pow(256, 2 * n) == Pow(B, n)
  {
    if n > 0 {
      SquareBase(n - 1);
      assert Pow(256, 2 * n) == 256 * (256 * Pow(256, 2 * n - 2));
    }
  }

  /** ed_neq25519 compares packings: they differ exactly when the numbers are
    different modulo P. */
  method NotEqual(a: array<int>, b: array<int>) returns (neq: bool)
    requires a.Length == b.Length == 16
    requires Within(a[..], -0x4000_0000_0000_0000, 0x4000_0000_0000_0000)
    requires Within(b[..], -0x4000_0000_0000_0000, 0x4000_0000_0000_0000)
    ensures neq <==> !Congruent(Num(a[..], B), Num(b[..], B), P)
  {
    hide Num;
    var c, d := new Byte[32], new Byte[32];
    Pack(c, a);
    Pack(d, b);
    neq := c[..] != d[..];
    if !neq {
      assert Num(c[..], 256) == Num(d[..], 256);
    } else if Num(c[..], 256) == Num(d[..], 256) {
      NumInjective(c[..], d[..], 256);
    }
  }
}
