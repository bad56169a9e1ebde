/** Scalar multiplication by the swap ladder, for any group the addition
  formulas compute in. That the Edwards curve is such a group is not proved
  here: it is the hypothesis `Refines`. */
module Ladder25519 {
  import opened Arith
  import opened Bits
  import opened Limbs
  import opened Field25519
  import opened Multiply25519
  import opened Point25519
  import Pack25519

  /** A group, the coordinates that stand for its elements, and which they stand for. */
  datatype Curve<!G> = Curve(on: Coordinates -> bool, element: Coordinates -> G, add: (G, G) -> G, zero: G)

  ghost predicate Refines<G(!new)>(c: Curve<G>) {
    && (forall a, b, d {:trigger c.add(c.add(a, b), d)} :: c.add(c.add(a, b), d) == c.add(a, c.add(b, d)))
    && (forall a {:trigger c.add(c.zero, a)} :: c.add(c.zero, a) == a)
    && (forall a {:trigger c.add(a, c.zero)} :: c.add(a, c.zero) == a)
    && c.on(IDENTITY) && c.element(IDENTITY) == c.zero
    && (forall p, q {:trigger AddFormula(p, q)} :: c.on(p) && c.on(q) ==> Adds(c, p, q))
  }

  /** The formulas give a point again, and it is the sum. */
  ghost predicate Adds<G(!new)>(c: Curve<G>, p: Coordinates, q: Coordinates) {
    c.on(AddFormula(p, q)) && c.element(AddFormula(p, q)) == c.add(c.element(p), c.element(q))
  }

  lemma Associates<G(!new)>(c: Curve<G>, a: G, b: G, d: G)
    requires Refines(c)
    ensures c.add(c.add(a, b), d) == c.add(a, c.add(b, d))
  {
    hide AddFormula;
  }

  lemma Neutral<G(!new)>(c: Curve<G>, a: G)
    requires Refines(c)
    ensures c.add(c.zero, a) == a == c.add(a, c.zero)
  {
    hide AddFormula;
  }

  lemma SumsArePoints<G(!new)>(c: Curve<G>, p: Coordinates, q: Coordinates)
    requires Refines(c) && c.on(p) && c.on(q)
    ensures Adds(c, p, q)
  {
    hide AddFormula;
    var sum := AddFormula(p, q);
  }

  /** g added to itself n times. */
  ghost function Multiple<G(!new)>(c: Curve<G>, n: nat, g: G): G {
    if n == 0 then c.zero else c.add(g, Multiple(c, n - 1, g))
  }

  lemma {:induction false} MultipleAdd<G(!new)>(c: Curve<G>, m: nat, n: nat, g: G)
    requires Refines(c)
    ensures c.add(Multiple(c, m, g), Multiple(c, n, g)) == Multiple(c, m + n, g)
  {
    hide Refines;
    if m == 0 {
      Neutral(c, Multiple(c, n, g));
    } else {
      MultipleAdd(c, m - 1, n, g);
      Associates(c, g, Multiple(c, m - 1, g), Multiple(c, n, g));
    }
  }

  function ScalarBit(s: seq<Byte>, i: nat): (b: nat)
    requires i < 8 * |s|
    ensures b <= 1
  {
    BitAt(s[i / 8], i % 8)
  }

  /** The number the scalar's bits from i up spell. */
  function TopBits(s: seq<Byte>, i: nat): nat
    requires i <= 8 * |s|
    decreases 8 * |s| - i
  {
    if i == 8 * |s| then 0 else 2 * TopBits(s, i + 1) + ScalarBit(s, i)
  }

  lemma BitOfByte(b: Byte)
    ensures BitAt(b, 0) == b % 2 && BitAt(b, 1) == b / 2 % 2 && BitAt(b, 2) == b / 4 % 2 && BitAt(b, 3) == b / 8 % 2
    ensures BitAt(b, 4) == b / 16 % 2 && BitAt(b, 5) == b / 32 % 2 && BitAt(b, 6) == b / 64 % 2 && BitAt(b, 7) == b / 128 % 2
  {
    assert Pow2(0) == 1 && Pow2(1) == 2 && Pow2(2) == 4 && Pow2(3) == 8;
    assert Pow2(4) == 16 && Pow2(5) == 32 && Pow2(6) == 64 && Pow2(7) == 128;
  }

  lemma EightBits(b: Byte)
    ensures b as int == b % 2 + 2 * (b / 2 % 2 + 2 * (b / 4 % 2 + 2 * (b / 8 % 2
              + 2 * (b / 16 % 2 + 2 * (b / 32 % 2 + 2 * (b / 64 % 2 + 2 * (b / 128 % 2)))))))
  {
    var x: int := b;
    assert x / 128 % 2 == x / 128;
    assert x / 64 == 2 * (x / 128) + x / 64 % 2;
    assert x / 32 == 2 * (x / 64) + x / 32 % 2;
    assert x / 16 == 2 * (x / 32) + x / 16 % 2;
    assert x / 8 == 2 * (x / 16) + x / 8 % 2;
    assert x / 4 == 2 * (x / 8) + x / 4 % 2;
    assert x / 2 == 2 * (x / 4) + x / 2 % 2;
  }

  lemma ByteHorner(b: Byte)
    ensures b as int == BitAt(b, 0) + 2 * (BitAt(b, 1) + 2 * (BitAt(b, 2) + 2 * (BitAt(b, 3)
              + 2 * (BitAt(b, 4) + 2 * (BitAt(b, 5) + 2 * (BitAt(b, 6) + 2 * BitAt(b, 7)))))))
  {
    BitOfByte(b);
    hide *;
    EightBits(b);
  }

  lemma TopByte(s: seq<Byte>, j: nat)
    requires j < |s|
    ensures TopBits(s, 8 * j) == s[j] + 256 * TopBits(s, 8 * j + 8)
  {
    hide *;
    ByteHorner(s[j]);
    TopByteNext(s, j, 7);
    TopByteNext(s, j, 6);
    TopByteNext(s, j, 5);
    TopByteNext(s, j, 4);
    TopByteNext(s, j, 3);
    TopByteNext(s, j, 2);
    TopByteNext(s, j, 1);
    TopByteNext(s, j, 0);
  }

  lemma TopByteNext(s: seq<Byte>, j: nat, m: nat)
    requires j < |s| && m < 8
    ensures TopBits(s, 8 * j + m) == 2 * TopBits(s, 8 * j + m + 1) + BitAt(s[j], m)
  {
    DivUnique(8 * j + m, 8, j, m);
  }

  lemma {:induction false} ScalarValue(s: seq<Byte>, j: nat)
    requires j <= |s|
    ensures TopBits(s, 8 * j) == Num(s[j..], 256)
    decreases |s| - j
  {
    if j < |s| {
      hide TopBits;
      TopByte(s, j);
      ScalarValue(s, j + 1);
      assert s[j..][1..] == s[j + 1..];
    }
  }

  lemma FitsWords(s: seq<int>, t: seq<int>)
    requires Term(s) && Term(t)
    ensures Pack25519.Int64(s) && Pack25519.Int64(t)
  {
  }

  /** ed_cswap: exchanges the two points when b is 1. */
  method Swap(p: Point, q: Point, b: nat)
    requires p.Valid() && q.Valid() && p.Repr() !! q.Repr() && b <= 1
    modifies p.Repr(), q.Repr()
    ensures p.Valid() && q.Valid()
    ensures p.Value() == old(if b == 1 then q.Value() else p.Value())
    ensures q.Value() == old(if b == 1 then p.Value() else q.Value())
  {
    hide Residue, Term, Pack25519.Int64;
    FitsWords(p.x[..], q.x[..]);
    Pack25519.Select(p.x, q.x, b);
    FitsWords(p.y[..], q.y[..]);
    Pack25519.Select(p.y, q.y, b);
    FitsWords(p.z[..], q.z[..]);
    Pack25519.Select(p.z, q.z, b);
    FitsWords(p.t[..], q.t[..]);
    Pack25519.Select(p.t, q.t, b);
  }

  /** What the ladder keeps: p is k times the base and q is one more. */
  ghost predicate Rung<G(!new)>(c: Curve<G>, g: G, k: nat, p: Coordinates, q: Coordinates) {
    c.on(p) && c.on(q) && c.element(p) == Multiple(c, k, g) && c.element(q) == Multiple(c, k + 1, g)
  }

  lemma NextRung<G(!new)>(c: Curve<G>, g: G, k: nat, p: Coordinates, q: Coordinates, b: nat)
    requires Refines(c) && Rung(c, g, k, p, q) && b <= 1
    ensures b == 0 ==> Rung(c, g, 2 * k, AddFormula(p, p), AddFormula(q, p))
    ensures b == 1 ==> Rung(c, g, 2 * k + 1, AddFormula(p, q), AddFormula(q, q))
  {
    hide AddFormula, Multiple, Refines;
    SumsArePoints(c, p, p);
    SumsArePoints(c, p, q);
    SumsArePoints(c, q, p);
    SumsArePoints(c, q, q);
    MultipleAdd(c, k, k, g);
    MultipleAdd(c, k, k + 1, g);
    MultipleAdd(c, k + 1, k, g);
    MultipleAdd(c, k + 1, k + 1, g);
  }

  lemma FirstRung<G(!new)>(c: Curve<G>, q: Coordinates)
    requires Refines(c) && c.on(q)
    ensures Rung(c, c.element(q), 0, IDENTITY, q)
  {
    hide AddFormula;
    assert Multiple(c, 1, c.element(q)) == c.add(c.element(q), Multiple(c, 0, c.element(q)));
  }

  /** Writes the identity: the limbs of (0, 1, 1, 0). */
  method SetIdentity(p: Point)
    requires p.Shape()
    modifies p.Repr()
    ensures p.Valid() && p.Value() == IDENTITY
  {
    hide Residue;
    SetSmall(p.x, 0);
    SetSmall(p.y, 1);
    SetSmall(p.z, 1);
    SetSmall(p.t, 0);
  }

  method SetSmall(o: array<int>, v: int)
    requires o.Length == 16 && 0 <= v < B
    modifies o
    ensures Term(o[..]) && Residue(o[..]) == v
  {
    for i := 0 to 16
      invariant forall k :: 0 <= k < i ==> o[k] == if k == 0 then v else 0
    {
      o[i] := if i == 0 then v else 0;
    }
    assert o[..][1..] == seq(15, i => 0);
    NumZero(15, B);
    assert Num(o[..], B) == v + B * 0;
    Modulus();
    ModSmall(v, P);
  }

  /** ed_scalarmult: p ends as s times the starting q, and q as one more, for
    every 256-bit scalar s and every group the formulas compute in. */
  method ScalarMult<G(!new)>(p: Point, q: Point, s: seq<Byte>, ghost c: Curve<G>)
    requires p.Shape() && q.Valid() && p.Repr() !! q.Repr() && |s| == 32
    requires Refines(c) && c.on(q.Value())
    modifies p.Repr(), q.Repr()
    ensures p.Valid() && q.Valid()
    ensures TopBits(s, 0) == Num(s, 256)
    ensures Rung(c, old(c.element(q.Value())), TopBits(s, 0), p.Value(), q.Value())
  {
    hide AddFormula, Rung, Refines, Multiple, TopBits, Num, Residue, Term;
    ghost var g := c.element(q.Value());
    SetIdentity(p);
    FirstRung(c, q.Value());
    TopStart(s);
    for i := 256 downto 0
      invariant p.Valid() && q.Valid()
      invariant Rung(c, g, TopBits(s, i), p.Value(), q.Value())
    {
      TopNext(s, i);
      var b := ScalarBit(s, i);
      NextRung(c, g, TopBits(s, i + 1), p.Value(), q.Value(), b);
      Swap(p, q, b);
      Add(q, p);
      Add(p, p);
      Swap(p, q, b);
    }
    ScalarValue(s, 0);
    assert s[0..] == s;
  }

  lemma TopStart(s: seq<Byte>)
    ensures TopBits(s, 8 * |s|) == 0
  {
  }

  lemma TopNext(s: seq<Byte>, i: nat)
    requires i < 8 * |s|
    ensures TopBits(s, i) == 2 * TopBits(s, i + 1) + ScalarBit(s, i)
  {
  }
}
